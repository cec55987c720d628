/** Values shared by both services: ids, the outcomes of a service call,
    user records, role names and the authenticated principal. */
module Domain {

  /** A JPA `Long` id. Ids are only compared and generated fresh, so the
      64-bit width plays no part and the model keeps them unbounded. */
  type Id = int

  /** A Kotlin nullable value. */
  datatype Option<+T> = None | Some(value: T)

  /** The exception a service call ends with. */
  datatype Error =
    | IllegalState(message: string)  // IllegalStateException
    | BadRequest(message: string)    // BadRequestException
    | NullDereference                // `!!` applied to null
    | NonUniqueResult                // a single-result query matched several rows

  /** A service call either returns (possibly `null`, as `Ok(None)`) or throws. */
  datatype Result<+T> = Ok(value: T) | Err(error: Error)

  const USER := "USER"
  const ADMIN := "ADMIN"

  const NOT_AUTHENTICATED := "User is not authenticated"
  const USER_ROLE_MISSING := "Role 'USER' not found!"
  const LAST_ADMIN := "Cannot delete the last system admin!"
  const USER_MISSING := "User don't exist!"
  const CATEGORY_MISSING := "Category don't exist!"
  const NOT_CREATOR := "User isn't the creator!"
  const NOT_ACCEPTED := "Not accepted!"
  const CATEGORY_MISSING_ON_DELETE := "Category don't exists!"

  /** A user record. Its role set holds role names; the `events` back-reference
      of the entity is not a field here, it is the query by creator id. */
  datatype User = User(id: Option<Id>, email: string, password: string, name: string, roles: set<string>)

  /** The sort key of `Sort.by("name")` on users. */
  function UserName(u: User): string { u.name }

  /** The one role test both services use, `roles.any { it.name == "ADMIN" }`:
      some role of the user is named ADMIN. */
  predicate HasAdminRole(u: User)
    ensures HasAdminRole(u) <==> ADMIN in u.roles
  {
    exists role :: role in u.roles && role == ADMIN
  }

  /** The body of a user-creation request; each field may be null. */
  datatype UserRequest = UserRequest(email: Option<string>, password: Option<string>, name: Option<string>)

  /** The body of a login request; each field may be null. */
  datatype LoginRequest = LoginRequest(email: Option<string>, password: Option<string>)

  /** An opaque bearer token issued for the user with id `subject`. */
  datatype Token = Token(subject: Id)

  /** What a successful login returns: the token and the user it was issued for. */
  datatype LoginResponse = LoginResponse(token: Token, user: User)

  /** `getUserIdFromToken`: the id of the authenticated principal, or the
      "not authenticated" failure when the request carries none. The principal
      is what the token extractor yields for the current request. */
  function UserIdFromToken(principal: Option<Id>): (r: Result<Id>)
    ensures r.Ok? <==> principal.Some?
    ensures r.Ok? ==> principal == Some(r.value)
    ensures r.Err? ==> r.error == IllegalState(NOT_AUTHENTICATED)
  {
    match principal
    case None => Err(IllegalState(NOT_AUTHENTICATED))
    case Some(id) => Ok(id)
  }
}
