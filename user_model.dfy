/** Users, signup requests and the error and effect vocabulary shared by both user
    services, with the uniqueness decision both of them make before a signup. */
module UserModel {
  import opened Common

  type UserId = nat

  datatype UserRole = Customer | Owner | Manager

  /** A stored user; `password` holds the encoded password. */
  datatype User = User(
    userId: UserId,
    username: string,
    password: string,
    email: string,
    nickname: string,
    realName: string,
    phoneNumber: string,
    userRole: UserRole)

  /** The signup request; `password` is the plain text. */
  datatype CreateUserRequest = CreateUserRequest(
    username: string,
    password: string,
    email: string,
    nickname: string,
    realName: string,
    phoneNumber: string,
    userRole: UserRole)

  /** The profile a caller reads back. */
  datatype UserInfo = UserInfo(
    userId: UserId,
    username: string,
    email: string,
    nickname: string,
    realName: string,
    phoneNumber: string,
    userRole: UserRole)

  /** What a caller of the user services sees on failure. EncoderException and
      RemoteCallException are exceptions the services let escape unchanged. */
  datatype UserError =
    | UserAlreadyExists
    | EmailAlreadyExists
    | NicknameAlreadyExists
    | PhoneNumberAlreadyExists
    | InternalServerError
    | CreateCartFailed
    | UserNotFound
    | LogoutFailed
    | EncoderException
    | RemoteCallException

  /** How a call to another service ends: a response, an HTTP error status (client or
      server error), or a failure below HTTP (connection refused, timeout). */
  datatype RemoteOutcome = Responded | HttpError | ConnectionError

  /** The effects a service has on the user table and on other services, in order. */
  datatype Effect =
    | Saved(user: User)
    | CartRequested(userId: UserId)
    | Anonymized(userId: UserId)
    | Deleted(user: User)
    | LogoutRequested

  predicate IsUniquenessError(e: UserError)
  {
    e == UserAlreadyExists || e == EmailAlreadyExists || e == NicknameAlreadyExists || e == PhoneNumberAlreadyExists
  }

  /** The stored user shares username, email, nickname or phone number with the request. */
  predicate SharesUniqueField(u: User, req: CreateUserRequest)
  {
    u.username == req.username || u.email == req.email || u.nickname == req.nickname
    || u.phoneNumber == req.phoneNumber
  }

  /** No stored user shares any of the four unique fields with the request. */
  predicate ClashFree(users: map<UserId, User>, req: CreateUserRequest)
  {
    forall id :: id in users ==> !SharesUniqueField(users[id], req)
  }

  /** The decision over the user the uniqueness query found, if any. */
  function UniquenessViolation(found: Option<User>, req: CreateUserRequest): (r: Option<UserError>)
    ensures r.Some? <==> found.Some? && SharesUniqueField(found.value, req)
    ensures r.Some? ==> IsUniquenessError(r.value)
  {
    match found
    case None => None
    case Some(u) =>
      if u.username == req.username then Some(UserAlreadyExists)
      else if u.email == req.email then Some(EmailAlreadyExists)
      else if u.nickname == req.nickname then Some(NicknameAlreadyExists)
      else if u.phoneNumber == req.phoneNumber then Some(PhoneNumberAlreadyExists)
      else None
  }

  /** The error precedence: username, then email, then nickname, then phone number, and
      no error when nothing was found. */
  lemma UniquenessPrecedence(found: Option<User>, req: CreateUserRequest)
    ensures found.None? ==> UniquenessViolation(found, req) == None
    ensures found.Some? && found.value.username == req.username ==>
              UniquenessViolation(found, req) == Some(UserAlreadyExists)
    ensures found.Some? && found.value.username != req.username && found.value.email == req.email ==>
              UniquenessViolation(found, req) == Some(EmailAlreadyExists)
    ensures found.Some? && found.value.username != req.username && found.value.email != req.email
            && found.value.nickname == req.nickname ==>
              UniquenessViolation(found, req) == Some(NicknameAlreadyExists)
    ensures found.Some? && found.value.username != req.username && found.value.email != req.email
            && found.value.nickname != req.nickname && found.value.phoneNumber == req.phoneNumber ==>
              UniquenessViolation(found, req) == Some(PhoneNumberAlreadyExists)
  {
  }

  /** The uniqueness query: some stored user sharing one of the four fields, or none
      when there is no such user. Which one it returns is not specified. */
  method FindFirstByUniqueFields(users: map<UserId, User>, req: CreateUserRequest) returns (found: Option<User>)
    ensures found.None? <==> ClashFree(users, req)
    ensures found.Some? ==> found.value in users.Values && SharesUniqueField(found.value, req)
  {
    found := None;
    if exists id :: id in users && SharesUniqueField(users[id], req) {
      var id :| id in users && SharesUniqueField(users[id], req);
      found := Some(users[id]);
    }
  }

  /** The user a signup saves: the request's fields, the encoded password, the id the
      store assigns. */
  function BuildUser(req: CreateUserRequest, id: UserId, encodedPassword: string): (u: User)
    ensures u.userId == id && u.password == encodedPassword
    ensures SharesUniqueField(u, req) && UniquenessViolation(Some(u), req) == Some(UserAlreadyExists)
  {
    User(id, req.username, encodedPassword, req.email, req.nickname, req.realName, req.phoneNumber, req.userRole)
  }

  /** The profile response: every field of the user except the password. */
  function InfoOf(u: User): (i: UserInfo)
    ensures i.userId == u.userId && i.username == u.username && i.email == u.email
    ensures i.nickname == u.nickname && i.realName == u.realName
    ensures i.phoneNumber == u.phoneNumber && i.userRole == u.userRole
  {
    UserInfo(u.userId, u.username, u.email, u.nickname, u.realName, u.phoneNumber, u.userRole)
  }

  /** The profile does not reveal the password: users that differ only in it have the
      same profile, and users that differ in anything else have different ones. */
  lemma ProfileOmitsPassword(u: User, password: string, other: User)
    ensures InfoOf(u.(password := password)) == InfoOf(u)
    ensures InfoOf(u) == InfoOf(other) <==> u.(password := other.password) == other
  {
  }

  /** The saved user carries the request's fields with the encoded password, and reading
      its profile back gives the request's fields. */
  lemma BuiltUserCarriesRequest(req: CreateUserRequest, id: UserId, encodedPassword: string)
    ensures var u := BuildUser(req, id, encodedPassword);
            && u.userId == id && u.password == encodedPassword
            && u.username == req.username && u.email == req.email && u.nickname == req.nickname
            && u.realName == req.realName && u.phoneNumber == req.phoneNumber && u.userRole == req.userRole
    ensures InfoOf(BuildUser(req, id, encodedPassword)) ==
            UserInfo(id, req.username, req.email, req.nickname, req.realName, req.phoneNumber, req.userRole)
  {
  }

  /** Once a signup has saved its user, the same request clashes with the store, and
      if the query finds that very user the error is UserAlreadyExists. */
  lemma SavedUserBlocksSameRequest(users: map<UserId, User>, req: CreateUserRequest, id: UserId, encodedPassword: string)
    ensures !ClashFree(users[id := BuildUser(req, id, encodedPassword)], req)
    ensures UniquenessViolation(Some(BuildUser(req, id, encodedPassword)), req) == Some(UserAlreadyExists)
  {
    var after := users[id := BuildUser(req, id, encodedPassword)];
    assert SharesUniqueField(after[id], req);
  }

  /** Removing a user never creates a clash, and a request that clashed only with the
      removed user is clash-free afterwards. */
  lemma RemovalAndClashes(users: map<UserId, User>, req: CreateUserRequest, id: UserId)
    ensures ClashFree(users, req) ==> ClashFree(users - {id}, req)
    ensures (forall other :: other in users && other != id ==> !SharesUniqueField(users[other], req)) ==>
              ClashFree(users - {id}, req)
  {
  }
}
