/**
 * The records the backend stores and exchanges: the `users`, `roles` and
 * `refresh_tokens` rows, the user DTO, validation errors, and the shape of an
 * HTTP reply.
 */
module Entities {
  import opened Wrappers
  import JwtUtil

  /** A java.util.UUID; its 128 bits are an opaque identity here. */
  type Uuid = nat

  /** An instant, in milliseconds since the epoch (Instant, Date, System.currentTimeMillis()). */
  type Millis = int

  datatype Role = Role(id: Uuid, name: string, description: string)

  /** A row of `users`. Every column but the id may be null; `roleId` is the `role_id` join column. */
  datatype User = User(
    id: Uuid,
    email: Option<string>,
    password: Option<string>,
    fullName: Option<string>,
    slug: Option<string>,
    dateOfBirth: Option<string>,
    gender: Option<string>,
    phone: Option<string>,
    address: Option<string>,
    roleId: Option<Uuid>)

  /** A row of `refresh_tokens`: the session of `userId`, presented as `token`, usable until `expiryDate`. */
  datatype RefreshToken = RefreshToken(id: Uuid, userId: Uuid, token: string, expiryDate: Millis)

  /** The request and response body shared by the user endpoints; any field may be null. */
  datatype UserDto = UserDto(
    roleId: Option<Uuid>,
    id: Option<Uuid>,
    email: Option<string>,
    password: Option<string>,
    fullName: Option<string>,
    roleName: Option<string>,
    phone: Option<string>)

  /**
   * The human-readable messages of the endpoints, one constructor per kind of
   * message: the blank-email and blank-password messages of register and of
   * login and lookup differ only in a prefix and share a constructor.
   */
  datatype Message =
    | EmailBlank | EmailHasWhitespace | EmailMalformed | EmailTaken
    | NameBlank | NameUntrimmed | NameMalformed | NameHasEmoji
    | PhoneBlank | PhoneMalformed
    | PasswordBlank
    | RoleNotFound(roleId: Uuid)
    | UserIdNotFound(userId: Uuid)
    | UserEmailNotFound(email: string)
    | EmailExists
    | BadCredentials
    | RefreshTokenBlank | RefreshTokenInvalid
    | UserRegistered | UserCreated | UserUpdated | UserDeleted

  datatype ValidationError = ValidationError(field: string, message: Message)

  /** A reply body. Tokens are carried as the values the token issuer produced. */
  datatype Body =
    | Text(message: Message)
    | Errors(errors: seq<ValidationError>)
    | LoginBody(accessToken: JwtUtil.Token, refreshToken: string, email: string, fullName: Option<string>)
    | RefreshBody(accessToken: JwtUtil.Token, refreshToken: string)
    | Profile(user: UserDto)
    | Profiles(users: set<UserDto>)

  /** The exceptions that escape a handler; the global exception handler turns each into a 500 reply. */
  datatype Exception =
    | SessionExpired     // thrown by RefreshTokenService.verifyExpiration
    | UserNotFound       // orElseThrow in the refresh flow
    | NullDereference    // a method called on a null reference
    | NullPassword       // the password encoder given a null password

  datatype Response = Reply(status: int, body: Body) | Thrown(exception: Exception)

  const OK := 200
  const BAD_REQUEST := 400
  const UNAUTHORIZED := 401
  const NOT_FOUND := 404

  /** A user as the read endpoints return it: identity, email, name and role, never the password. */
  function ToDto(u: User): UserDto
  {
    UserDto(u.roleId, Some(u.id), u.email, None, u.fullName, None, None)
  }
}
