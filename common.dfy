/** Values shared by the whole model of the blog backend: optional values,
    record identifiers, user roles, the acting user of a request and the
    status-plus-message replies the request handlers send. */
module Common {

  datatype Option<+T> = None | Some(value: T) {
    /** The value, or `default` when there is none. */
    function GetOr(default: T): T {
      match this
      case Some(v) => v
      case None => default
    }
  }

  /** The outcome of an opaque step that may throw: a value or the error's message. */
  datatype Result<+T> = Ok(value: T) | Err(message: string)

  /** A record identifier (a Mongo ObjectId). Each table hands them out in increasing order. */
  type Id = nat

  /** An octet of a Node.js Buffer. */
  type Byte = b: nat | b < 256

  /** JavaScript truthiness of an optional string of a request body: an absent field and '' are falsy. */
  predicate Truthy(s: Option<string>) {
    s.Some? && s.value != ""
  }

  /** The JavaScript expression `s || fallback` for an optional string. */
  function OrElse(s: Option<string>, fallback: string): string {
    if Truthy(s) then s.value else fallback
  }

  /** The user schema's role enum. */
  datatype Role = UserRole | AuthorRole | AdminRole

  /** The string the role is stored and signed as. */
  function RoleName(r: Role): string {
    match r
    case UserRole => "user"
    case AuthorRole => "author"
    case AdminRole => "admin"
  }

  /** The enum validator of the role field: the strings it accepts and the role each one stands for. */
  function ParseRole(s: string): (r: Option<Role>)
    ensures r.Some? <==> (s == "user" || s == "author" || s == "admin")
    ensures r.Some? ==> RoleName(r.value) == s
  {
    if s == "user" then Some(UserRole)
    else if s == "author" then Some(AuthorRole)
    else if s == "admin" then Some(AdminRole)
    else None
  }

  /** The user that the authentication middleware attached to the request (`req.user`). */
  datatype Actor = Actor(id: Id, role: Role)

  /** The ownership check of updatePost and deletePost: the actor wrote the
      post or is an admin. An admin may modify every post; anyone else
      exactly their own. */
  predicate MayModify(actor: Actor, author: Id)
    ensures actor.role == AdminRole ==> MayModify(actor, author)
    ensures actor.role != AdminRole ==> (MayModify(actor, author) <==> author == actor.id)
  {
    author == actor.id || actor.role == AdminRole
  }

  /** A handler's reply: its HTTP status, its message and the record it carries, if any. */
  datatype Reply<+T> = Reply(status: nat, message: string, data: Option<T>)

  const STATUS_OK: nat := 200
  const STATUS_CREATED: nat := 201
  const STATUS_BAD_REQUEST: nat := 400
  const STATUS_UNAUTHORIZED: nat := 401
  const STATUS_FORBIDDEN: nat := 403
  const STATUS_NOT_FOUND: nat := 404
  const STATUS_SERVER_ERROR: nat := 500
}
