/** The User schema (models/User.js): the record, the validators and defaults
    the schema declares, the `trim`/`lowercase` setters, the pre-save hook
    that hashes a modified password, password matching and the password
    reset token. */
module UserModel {
  import opened Common
  import opened Text

  const MIN_NAME_LENGTH: nat := 2
  const MIN_PASSWORD_LENGTH: nat := 6
  const MAX_BIO_LENGTH: nat := 300
  /** `crypto.randomBytes(20)`. */
  const RESET_TOKEN_BYTES: nat := 20
  /** Ten minutes, in milliseconds. */
  const RESET_TOKEN_LIFETIME_MS: int := 10 * 60 * 1000

  /** A user record. `password` holds the plain password until the pre-save
      hook replaces it with its bcrypt hash; a stored record holds the hash.
      None stands for a Date or String field that was never set. */
  datatype User = User(
    id: Id,
    name: string,
    email: string,
    password: string,
    role: Role,
    skills: seq<string>,
    languages: seq<string>,
    country: string,
    avatarUrl: string,
    bio: string,
    lastLogin: Option<int>,
    resetPasswordToken: Option<string>,
    resetPasswordExpire: Option<int>,
    createdAt: int,
    updatedAt: int)

  /** The fields registerUser passes to `User.create`; None is a field the
      request left out. The email is the lookup key of the handlers and is
      taken to be present. */
  datatype UserInput = UserInput(
    name: Option<string>,
    email: string,
    password: Option<string>,
    country: Option<string>,
    skills: Option<seq<string>>,
    languages: Option<seq<string>>,
    avatarUrl: Option<string>)

  /** The `lowercase` and `trim` setters of the email, which Mongoose also
      applies to the email of a query filter. */
  function NormalizeEmail(e: string): (r: string)
    ensures |r| <= |e|
  {
    Lower(Trim(e))
  }

  /** Either order of the two setters gives the same string, one with no
      surrounding space. */
  lemma NormalizeEmailEitherOrder(e: string)
    ensures NormalizeEmail(e) == Trim(Lower(e))
    ensures IsTrimmed(NormalizeEmail(e)) && |NormalizeEmail(e)| <= |e|
  {
    LowerTrimCommute(e);
  }

  lemma NormalizeEmailIdempotent(e: string)
    ensures NormalizeEmail(NormalizeEmail(e)) == NormalizeEmail(e)
  {
    var t := Trim(Lower(e));
    NormalizeEmailEitherOrder(t);
    NormalizeEmailEitherOrder(e);
    LowerIdempotent(Trim(e));
    TrimIdempotent(Lower(e));
    calc {
      NormalizeEmail(t);
    ==  Trim(Lower(t));
    ==  { assert t == Lower(Trim(e)); }
      Trim(Lower(Lower(Trim(e))));
    ==  Trim(Lower(Trim(e)));
    ==  Trim(Trim(Lower(e)));
    ==  t;
    }
  }

  /** The schema's validators on a record whose setters have run: a required
      name of at least 2 UTF-16 code units, a required email, a required
      password of at least 6 code units (checked before the pre-save hook
      hashes it) and a bio of at most 300 code units; `minlength` and
      `maxlength` measure String.prototype.length. A required string rejects
      '', which the two minimum lengths already exclude. The role enum holds
      by the type of the field. A valid name and password are not empty and a
      valid bio has at most 300 characters. */
  predicate Valid(u: User)
    ensures Valid(u) ==> u.name != "" && u.email != "" && u.password != "" && |u.bio| <= MAX_BIO_LENGTH
  {
    && JsLength(u.name) >= MIN_NAME_LENGTH
    && u.email != ""
    && JsLength(u.password) >= MIN_PASSWORD_LENGTH
    && JsLength(u.bio) <= MAX_BIO_LENGTH
  }

  /** What every stored user satisfies: it passed the validators (whatever
      the password then became) and its name and email went through their
      `trim` setters. */
  predicate Stored(u: User) {
    && IsTrimmed(u.name) && JsLength(u.name) >= MIN_NAME_LENGTH
    && IsTrimmed(u.email) && u.email != ""
    && JsLength(u.bio) <= MAX_BIO_LENGTH
  }

  /** What `User.create(fields)` builds before validation: the setters applied
      to name and email, and the declared default for each field the request
      left out. The role and bio are not among the fields, so they take their
      defaults; both timestamps are the creation time. */
  function NewUser(id: Id, input: UserInput, now: int): (u: User)
    ensures u.id == id && IsTrimmed(u.name) && |u.email| <= |input.email|
    ensures u.createdAt == u.updatedAt == now
  {
    User(
      id,
      Trim(input.name.GetOr("")),
      NormalizeEmail(input.email),
      input.password.GetOr(""),
      UserRole,
      input.skills.GetOr([]),
      input.languages.GetOr([]),
      input.country.GetOr(""),
      input.avatarUrl.GetOr(""),
      "",
      None,
      None,
      None,
      now,
      now)
  }

  /** A new user is a plain user; omitted fields take the schema's defaults. */
  lemma NewUserDefaults(id: Id, input: UserInput, now: int)
    ensures var u := NewUser(id, input, now);
      && u.role == UserRole && RoleName(u.role) == "user"
      && (input.skills.None? ==> u.skills == [])
      && (input.languages.None? ==> u.languages == [])
      && (input.country.None? ==> u.country == "")
      && (input.avatarUrl.None? ==> u.avatarUrl == "")
      && u.bio == "" && u.lastLogin.None? && u.resetPasswordToken.None?
  {
  }

  /** Exactly the registrations with a name of at least 2 UTF-16 code units
      once trimmed, a non-blank email and a password of at least 6 code units
      pass the validators. */
  lemma NewUserValid(id: Id, input: UserInput, now: int)
    ensures Valid(NewUser(id, input, now)) <==>
      && input.name.Some? && JsLength(Trim(input.name.value)) >= MIN_NAME_LENGTH
      && NormalizeEmail(input.email) != ""
      && input.password.Some? && JsLength(input.password.value) >= MIN_PASSWORD_LENGTH
  {
    if input.name.None? {
      assert Trim("") == "";
    }
  }

  /** A user that passed the validators is storable whatever the hook makes of its password. */
  lemma NewUserStored(id: Id, input: UserInput, now: int, hashed: string)
    requires Valid(NewUser(id, input, now))
    ensures Stored(NewUser(id, input, now).(password := hashed))
  {
    NormalizeEmailEitherOrder(input.email);
  }

  /** `bcrypt.hash(password, salt)`; the library is a parameter of the model. */
  function HashOf(hash: (string, string) -> string, password: string, salt: string): string {
    hash(password, salt)
  }

  /** `bcrypt.compare(entered, hashed)`; the library is a parameter of the model. */
  function Matches(compare: (string, string) -> bool, entered: string, hashed: string): bool {
    compare(entered, hashed)
  }

  /** `crypto.createHash('sha256').update(s).digest('hex')`; the digest is a parameter of the model. */
  function DigestOf(sha256: string -> string, s: string): string {
    sha256(s)
  }

  /** A Mongoose document of the User model. `passwordModified` is what
      `isModified('password')` answers: true for a new document, false for a
      loaded one until its password is assigned. */
  class UserDocument {
    var id: Id
    var name: string
    var email: string
    var password: string
    var role: Role
    var skills: seq<string>
    var languages: seq<string>
    var country: string
    var avatarUrl: string
    var bio: string
    var lastLogin: Option<int>
    var resetPasswordToken: Option<string>
    var resetPasswordExpire: Option<int>
    var createdAt: int
    var updatedAt: int
    var passwordModified: bool

    /** The record the document stands for. */
    function Record(): User
      reads this
    {
      User(id, name, email, password, role, skills, languages, country, avatarUrl, bio,
        lastLogin, resetPasswordToken, resetPasswordExpire, createdAt, updatedAt)
    }

    /** `new User(fields)`: every path is new, so the password counts as modified. */
    constructor Create(id: Id, input: UserInput, now: int)
      ensures Record() == NewUser(id, input, now) && passwordModified
    {
      this.id, role, bio := id, UserRole, "";
      name := Trim(input.name.GetOr(""));
      email := NormalizeEmail(input.email);
      password := input.password.GetOr("");
      skills, languages := input.skills.GetOr([]), input.languages.GetOr([]);
      country, avatarUrl := input.country.GetOr(""), input.avatarUrl.GetOr("");
      lastLogin, resetPasswordToken, resetPasswordExpire := None, None, None;
      createdAt, updatedAt := now, now;
      passwordModified := true;
    }

    /** `User.findOne(...)`: the document of a stored record, nothing modified. */
    constructor Load(u: User)
      ensures Record() == u && !passwordModified
    {
      id, name, email, password, role := u.id, u.name, u.email, u.password, u.role;
      skills, languages, country, avatarUrl, bio := u.skills, u.languages, u.country, u.avatarUrl, u.bio;
      lastLogin, resetPasswordToken, resetPasswordExpire := u.lastLogin, u.resetPasswordToken, u.resetPasswordExpire;
      createdAt, updatedAt := u.createdAt, u.updatedAt;
      passwordModified := false;
    }

    /** `user.lastLogin = new Date()`. */
    method SetLastLogin(now: int)
      modifies this`lastLogin
      ensures Record() == old(Record()).(lastLogin := Some(now))
    {
      lastLogin := Some(now);
    }

    /** The `timestamps` option: saving a modified document sets `updatedAt`. */
    method Touch(now: int)
      modifies this`updatedAt
      ensures Record() == old(Record()).(updatedAt := now)
    {
      updatedAt := now;
    }

    /** The pre-save hook: a modified password is replaced by its hash under
        the salt of `bcrypt.genSalt(10)`; an unmodified one is left alone, so
        saving a document whose password was never assigned keeps its hash. */
    method PreSave(hash: (string, string) -> string, salt: string)
      modifies this`password
      ensures passwordModified ==> Record() == old(Record()).(password := HashOf(hash, old(password), salt))
      ensures !passwordModified ==> Record() == old(Record())
    {
      if !passwordModified {
        return;
      }
      password := HashOf(hash, password, salt);
    }

    /** matchPassword: `bcrypt.compare(entered, this.password)`, against the
        password the record holds (its hash, for a stored user). */
    function MatchPassword(entered: string, compare: (string, string) -> bool): (r: bool)
      reads this
      ensures r == Matches(compare, entered, Record().password)
    {
      Matches(compare, entered, password)
    }

    /** generateResetToken: the token is the hex encoding of 20 random bytes,
        40 characters that decode back to those bytes. The document keeps only
        the SHA-256 digest of the token and an expiry ten minutes after `now`;
        nothing else changes. */
    method GenerateResetToken(random: seq<Byte>, sha256: string -> string, now: int) returns (token: string)
      requires |random| == RESET_TOKEN_BYTES
      modifies this`resetPasswordToken, this`resetPasswordExpire
      ensures |token| == 2 * RESET_TOKEN_BYTES && FromHex(token) == Some(random)
      ensures Record() == old(Record()).(
        resetPasswordToken := Some(DigestOf(sha256, token)),
        resetPasswordExpire := Some(now + RESET_TOKEN_LIFETIME_MS))
    {
      token := ToHex(random);
      HexRoundTrip(random);
      resetPasswordToken := Some(DigestOf(sha256, token));
      resetPasswordExpire := Some(now + RESET_TOKEN_LIFETIME_MS);
    }
  }
}
