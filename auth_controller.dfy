/** The authentication handlers of controllers/authController.js over the
    user collection: the token they sign, registerUser and loginUser. The
    JWT secret and the token's encoding are not modelled: a token is the
    payload that is signed. */
module AuthController {
  import opened Common
  import opened Tables
  import opened UserModel

  /** `expiresIn: '7d'`, in seconds. */
  const TOKEN_LIFETIME_SECONDS: int := 7 * 24 * 60 * 60

  const MSG_EMAIL_TAKEN: string := "Email already registered"
  const MSG_REGISTERED: string := "User registered successfully"
  const MSG_USER_NOT_FOUND: string := "User not found"
  const MSG_INVALID_CREDENTIALS: string := "Invalid credentials"
  const MSG_LOGGED_IN: string := "Login successful"
  const MSG_SERVER_ERROR: string := "Server error"

  /** The signed payload `{ id, role }` with the issued-at and expiry times
      jsonwebtoken adds, in whole seconds. */
  datatype Claims = Claims(id: Id, role: Role, iat: int, exp: int)

  /** The `user` object of a reply: id, name, email and role, and nothing else. */
  datatype UserView = UserView(id: Id, name: string, email: string, role: Role)

  /** The body of a successful register or login. */
  datatype Session = Session(token: Claims, user: UserView)

  /** generateToken at time `now` (milliseconds): the user's id and role,
      issued at `now` rounded down to the second and expiring seven days later. */
  function GenerateToken(u: User, now: int): (c: Claims)
    ensures c.id == u.id && c.role == u.role
    ensures c.exp - c.iat == TOKEN_LIFETIME_SECONDS == 604800
  {
    Claims(u.id, u.role, now / 1000, now / 1000 + TOKEN_LIFETIME_SECONDS)
  }

  /** The token is issued at the second `now` falls in. */
  lemma TokenIssuedThisSecond(u: User, now: int)
    ensures var c := GenerateToken(u, now);
      c.iat * 1000 <= now < c.iat * 1000 + 1000
  {
  }

  /** The reply body of a register or login for user `u`: the token and the
      user view name the same user with the same role, and the view carries
      its name and email (a UserView has no room for the password). */
  function SessionFor(u: User, now: int): (s: Session)
    ensures s.token.id == s.user.id == u.id && s.token.role == s.user.role == u.role
    ensures s.user.name == u.name && s.user.email == u.email
  {
    Session(GenerateToken(u, now), UserView(u.id, u.name, u.email, u.role))
  }

  /** Some stored user has this email. */
  predicate EmailTaken(users: map<Id, User>, email: string) {
    exists k | k in users :: users[k].email == email
  }

  /** The unique index on the email: no two stored users share one. */
  ghost predicate EmailsUnique(users: map<Id, User>) {
    forall i, j :: i in users && j in users && users[i].email == users[j].email ==> i == j
  }

  /** `User.findOne({ email })` over a table whose keys are below `n`, with the
      email's setters applied to the filter: the first user with the
      normalised email, None exactly when there is none. */
  function FindByEmail(users: map<Id, User>, n: nat, email: string): (r: Option<Id>)
    requires forall k :: k in users ==> k < n
    ensures r.Some? ==> r.value in users && users[r.value].email == NormalizeEmail(email)
    ensures r.None? <==> !EmailTaken(users, NormalizeEmail(email))
  {
    var key := NormalizeEmail(email);
    FirstKey(users, n, (u: User) => u.email == key)
  }

  /** Keys below the next id, records carrying their keys, every stored user
      past the validators and setters, and unique emails. */
  ghost predicate UsersValid(users: map<Id, User>, n: nat) {
    && (forall k :: k in users ==> k < n && users[k].id == k && Stored(users[k]))
    && EmailsUnique(users)
  }

  /** Inserting a stored-shape user under the next id, with an email no one
      has, keeps the invariant once the counter moves on. */
  lemma InsertKeepsUsersValid(users: map<Id, User>, n: nat, u: User)
    requires UsersValid(users, n)
    requires u.id == n && Stored(u) && !EmailTaken(users, u.email)
    ensures UsersValid(users[n := u], n + 1)
  {
    var users' := users[n := u];
    forall i, j | i in users' && j in users' && users'[i].email == users'[j].email ensures i == j {
      if i != n && j != n {
        assert users'[i] == users[i] && users'[j] == users[j];
      }
    }
  }

  /** Adding a valid new user whose email is not taken keeps the invariant. */
  lemma RegisterKeepsUsersValid(users: map<Id, User>, n: nat, input: UserInput, now: int, hashed: string)
    requires UsersValid(users, n)
    requires Valid(NewUser(n, input, now)) && !EmailTaken(users, NormalizeEmail(input.email))
    ensures UsersValid(users[n := NewUser(n, input, now).(password := hashed)], n + 1)
  {
    NewUserStored(n, input, now, hashed);
    InsertKeepsUsersValid(users, n, NewUser(n, input, now).(password := hashed));
  }

  /** The invariant only bounds the keys from above, so a used-up id keeps it. */
  lemma SkipIdKeepsUsersValid(users: map<Id, User>, n: nat)
    requires UsersValid(users, n)
    ensures UsersValid(users, n + 1)
  {
  }

  /** Saving a stored user again with the same id, name, email and bio keeps the invariant. */
  lemma ResaveKeepsUsersValid(users: map<Id, User>, n: nat, u: User)
    requires UsersValid(users, n) && u.id in users
    requires var v := users[u.id]; u.name == v.name && u.email == v.email && u.bio == v.bio
    ensures UsersValid(users[u.id := u], n)
  {
    var users' := users[u.id := u];
    forall i, j | i in users' && j in users' && users'[i].email == users'[j].email ensures i == j {
      assert users'[i].email == users[i].email && users'[j].email == users[j].email;
    }
  }

  /** In a valid table, the user under `n` is what findOne answers for any
      email that normalises to that user's: no one else has it. */
  lemma OnlyHolderFound(users: map<Id, User>, n: nat, m: nat, email: string)
    requires UsersValid(users, m) && n in users
    requires users[n].email == NormalizeEmail(email)
    ensures FindByEmail(users, m, email) == Some(n)
  {
    assert EmailTaken(users, NormalizeEmail(email));
  }

  /** Whoever registered can be found again by any spelling of the email that
      normalises to the same address: the new record is the only one with it. */
  lemma RegisteredUserFound(users: map<Id, User>, n: nat, input: UserInput, now: int, hashed: string, email: string)
    requires UsersValid(users, n)
    requires Valid(NewUser(n, input, now)) && !EmailTaken(users, NormalizeEmail(input.email))
    requires NormalizeEmail(email) == NormalizeEmail(input.email)
    ensures var users' := users[n := NewUser(n, input, now).(password := hashed)];
      && (forall k :: k in users' ==> k < n + 1)
      && FindByEmail(users', n + 1, email) == Some(n)
  {
    RegisterKeepsUsersValid(users, n, input, now, hashed);
    var users' := users[n := NewUser(n, input, now).(password := hashed)];
    OnlyHolderFound(users', n, n + 1, email);
  }

  /** A login after registering checks the entered password against the hash
      the pre-save hook stored, `hash(password, salt)`, and not against the
      password as registered: the lookup finds the new record, and
      matchPassword on it accepts exactly what `compare` accepts for that hash. */
  lemma RegisterThenLoginChecksHash(users: map<Id, User>, n: nat, input: UserInput, now: int,
      hash: (string, string) -> string, salt: string, compare: (string, string) -> bool, entered: string)
    requires UsersValid(users, n)
    requires Valid(NewUser(n, input, now)) && !EmailTaken(users, NormalizeEmail(input.email))
    ensures var u := NewUser(n, input, now);
      var users' := users[n := u.(password := HashOf(hash, u.password, salt))];
      && (forall k :: k in users' ==> k < n + 1)
      && FindByEmail(users', n + 1, input.email) == Some(n)
      && (Matches(compare, entered, users'[n].password)
          <==> compare(entered, hash(input.password.GetOr(""), salt)))
  {
    var u := NewUser(n, input, now);
    var users' := users[n := u.(password := HashOf(hash, u.password, salt))];
    RegisteredUserFound(users, n, input, now, HashOf(hash, u.password, salt), input.email);
    assert users'[n].password == hash(input.password.GetOr(""), salt);
  }

  /** The user collection and the bcrypt functions, which are parameters of
      the model: `hash(password, salt)` and `compare(password, hash)`. */
  class CredentialStore {
    var users: map<Id, User>
    var nextUserId: Id
    const hash: (string, string) -> string
    const compare: (string, string) -> bool

    ghost predicate Valid()
      reads this
    {
      UsersValid(users, nextUserId)
    }

    constructor (hash: (string, string) -> string, compare: (string, string) -> bool)
      ensures Valid() && users == map[]
      ensures this.hash == hash && this.compare == compare
    {
      this.hash, this.compare := hash, compare;
      users, nextUserId := map[], 0;
    }

    /** registerUser. An email some user already has is 400 before anything
        changes. Otherwise the new document takes the next id; it is stored,
        with its password hashed under `salt`, if it passes the validators
        (201, with a token and the user's view), or not at all (500). */
    method RegisterUser(input: UserInput, now: int, salt: string) returns (reply: Reply<Session>)
      requires Valid()
      modifies this
      ensures Valid()
      ensures EmailTaken(old(users), NormalizeEmail(input.email)) ==>
        reply == Reply(STATUS_BAD_REQUEST, MSG_EMAIL_TAKEN, None) && unchanged(this)
      ensures !EmailTaken(old(users), NormalizeEmail(input.email)) ==>
        var u := NewUser(old(nextUserId), input, now);
        var stored := u.(password := HashOf(hash, u.password, salt));
        && nextUserId == old(nextUserId) + 1
        && (UserModel.Valid(u) ==>
              reply == Reply(STATUS_CREATED, MSG_REGISTERED, Some(SessionFor(stored, now)))
              && users == old(users)[u.id := stored])
        && (!UserModel.Valid(u) ==>
              reply == Reply(STATUS_SERVER_ERROR, MSG_SERVER_ERROR, None) && users == old(users))
    {
      var existing := FindByEmail(users, nextUserId, input.email);
      if existing.Some? {
        return Reply(STATUS_BAD_REQUEST, MSG_EMAIL_TAKEN, None);
      }
      reply := RegisterNew(input, now, salt);
    }

    /** The part of registerUser past the duplicate check: `User.create`, with
        the validators and then the pre-save hook. */
    method RegisterNew(input: UserInput, now: int, salt: string) returns (reply: Reply<Session>)
      requires Valid() && !EmailTaken(users, NormalizeEmail(input.email))
      modifies this
      ensures Valid()
      ensures var u := NewUser(old(nextUserId), input, now);
        var stored := u.(password := HashOf(hash, u.password, salt));
        && nextUserId == old(nextUserId) + 1
        && reply == (if UserModel.Valid(u) then Reply(STATUS_CREATED, MSG_REGISTERED, Some(SessionFor(stored, now)))
                     else Reply(STATUS_SERVER_ERROR, MSG_SERVER_ERROR, None))
        && users == (if UserModel.Valid(u) then old(users)[u.id := stored] else old(users))
    {
      var doc := new UserDocument.Create(nextUserId, input, now);
      var id := UseNextId();
      ghost var built := NewUser(id, input, now);
      assert doc.Record() == built;
      if !UserModel.Valid(doc.Record()) {
        return Reply(STATUS_SERVER_ERROR, MSG_SERVER_ERROR, None);
      }
      var u := StoreValidated(doc, input, now, salt);
      reply := Reply(STATUS_CREATED, MSG_REGISTERED, Some(SessionFor(u, now)));
    }

    /** A new document that passed the validators is stored with its password hashed. */
    method StoreValidated(doc: UserDocument, input: UserInput, now: int, salt: string) returns (u: User)
      requires Valid() && doc.id + 1 == nextUserId && doc.passwordModified
      requires forall k :: k in users ==> k < doc.id
      requires doc.Record() == NewUser(doc.id, input, now) && UserModel.Valid(doc.Record())
      requires !EmailTaken(users, NormalizeEmail(input.email))
      modifies this`users, doc`password
      ensures Valid()
      ensures var n := NewUser(old(doc.id), input, now);
        u == n.(password := HashOf(hash, n.password, salt)) && users == old(users)[u.id := u]
    {
      ghost var built := doc.Record();
      NewUserStored(doc.id, input, now, built.password);
      assert built.(password := built.password) == built;
      u := StoreNew(doc, salt);
    }

    /** The id a new document takes: the counter moves on, whatever becomes of the document. */
    method UseNextId() returns (id: Id)
      requires Valid()
      modifies this`nextUserId
      ensures Valid() && id == old(nextUserId) && nextUserId == id + 1
      ensures forall k :: k in users ==> k < id
    {
      id := nextUserId;
      SkipIdKeepsUsersValid(users, id);
      nextUserId := id + 1;
    }

    /** A new document that passed the validators: the pre-save hook hashes
        its password and the record is stored under its id. */
    method StoreNew(doc: UserDocument, salt: string) returns (u: User)
      requires Valid() && doc.id + 1 == nextUserId && doc.passwordModified
      requires forall k :: k in users ==> k < doc.id
      requires Stored(doc.Record()) && !EmailTaken(users, doc.email)
      modifies this`users, doc`password
      ensures Valid()
      ensures u == old(doc.Record()).(password := HashOf(hash, old(doc.password), salt))
      ensures users == old(users)[u.id := u]
    {
      assert UsersValid(users, doc.id);
      doc.PreSave(hash, salt);
      u := doc.Record();
      InsertKeepsUsersValid(users, u.id, u);
      users := users[u.id := u];
    }

    /** loginUser. An unknown email is 404 and a password that does not match
        the stored hash 401, both before anything changes; a missing password
        makes bcrypt throw (500). Otherwise the user's lastLogin becomes `now`
        and the user is saved, with the stored hash as it was, and the reply
        carries a token and the user's view (200). */
    method LoginUser(email: string, password: Option<string>, now: int) returns (reply: Reply<Session>)
      requires Valid()
      modifies this`users
      ensures Valid()
      ensures !EmailTaken(old(users), NormalizeEmail(email)) ==>
        reply == Reply(STATUS_NOT_FOUND, MSG_USER_NOT_FOUND, None) && users == old(users)
      ensures EmailTaken(old(users), NormalizeEmail(email)) ==>
        var id := FindByEmail(old(users), nextUserId, email).value;
        var u := old(users)[id];
        var saved := u.(lastLogin := Some(now), updatedAt := now);
        var accepted := password.Some? && Matches(compare, password.value, u.password);
        && reply == (if password.None? then Reply(STATUS_SERVER_ERROR, MSG_SERVER_ERROR, None)
                     else if !accepted then Reply(STATUS_UNAUTHORIZED, MSG_INVALID_CREDENTIALS, None)
                     else Reply(STATUS_OK, MSG_LOGGED_IN, Some(SessionFor(saved, now))))
        && users == (if accepted then old(users)[id := saved] else old(users))
    {
      var found := FindByEmail(users, nextUserId, email);
      if found.None? {
        assert !EmailTaken(users, NormalizeEmail(email));
        return Reply(STATUS_NOT_FOUND, MSG_USER_NOT_FOUND, None);
      }
      assert EmailTaken(users, NormalizeEmail(email));
      reply := LoginFound(found.value, password, now);
    }

    /** The part of loginUser past the lookup, for the user stored under `id`. */
    method LoginFound(id: Id, password: Option<string>, now: int) returns (reply: Reply<Session>)
      requires Valid() && id in users
      modifies this`users
      ensures Valid()
      ensures var u := old(users)[id];
        var saved := u.(lastLogin := Some(now), updatedAt := now);
        var accepted := password.Some? && Matches(compare, password.value, u.password);
        && reply == (if password.None? then Reply(STATUS_SERVER_ERROR, MSG_SERVER_ERROR, None)
                     else if !accepted then Reply(STATUS_UNAUTHORIZED, MSG_INVALID_CREDENTIALS, None)
                     else Reply(STATUS_OK, MSG_LOGGED_IN, Some(SessionFor(saved, now))))
        && users == (if accepted then old(users)[id := saved] else old(users))
    {
      var doc := new UserDocument.Load(users[id]);
      assert Valid() && doc.id == id;
      if password.None? {
        return Reply(STATUS_SERVER_ERROR, MSG_SERVER_ERROR, None);
      }
      if !doc.MatchPassword(password.value, compare) {
        return Reply(STATUS_UNAUTHORIZED, MSG_INVALID_CREDENTIALS, None);
      }
      var u := SaveLogin(doc, now);
      reply := Reply(STATUS_OK, MSG_LOGGED_IN, Some(SessionFor(u, now)));
    }

    /** Lines 62-63 of loginUser: the loaded user's lastLogin becomes `now` and
        the document is saved; the pre-save hook leaves the hash alone. */
    method SaveLogin(doc: UserDocument, now: int) returns (u: User)
      requires Valid() && doc.id in users && doc.Record() == users[doc.id] && !doc.passwordModified
      modifies this`users, doc
      ensures Valid()
      ensures u == old(doc.Record()).(lastLogin := Some(now), updatedAt := now)
      ensures users == old(users)[u.id := u]
    {
      doc.SetLastLogin(now);
      // The password was not assigned, so the hook returns before genSalt.
      doc.PreSave(hash, "");
      doc.Touch(now);
      u := doc.Record();
      ResaveKeepsUsersValid(users, nextUserId, u);
      users := users[u.id := u];
    }
  }
}
