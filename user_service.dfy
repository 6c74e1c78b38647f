/** The user service: signup, withdrawal and profile lookup over the user table, with
    the password encoder and the anonymization step as collaborators and the cart and
    auth services reached by remote calls whose outcome is a parameter. */
module UserService {
  import opened Common
  import opened UserModel

  /** The remote-call outcome the signup reports: an HTTP error status becomes
      CreateCartFailed, a failure below HTTP escapes unchanged. */
  function CartResult(id: UserId, cart: RemoteOutcome): (r: Result<UserId, UserError>)
    ensures r.Success? <==> cart == Responded
    ensures r.Success? ==> r.value == id
    ensures r == Failure(CreateCartFailed) <==> cart == HttpError
  {
    match cart
    case Responded => Success(id)
    case HttpError => Failure(CreateCartFailed)
    case ConnectionError => Failure(RemoteCallException)
  }

  /** The outcome of withdrawal's logout call: an HTTP error status becomes LogoutFailed,
      a failure below HTTP escapes unchanged. */
  function LogoutResult(logout: RemoteOutcome): (r: Result<(), UserError>)
    ensures r.Success? <==> logout == Responded
    ensures r == Failure(LogoutFailed) <==> logout == HttpError
  {
    match logout
    case Responded => Success(())
    case HttpError => Failure(LogoutFailed)
    case ConnectionError => Failure(RemoteCallException)
  }

  class UserService {
    var users: map<UserId, User>
    var nextId: UserId
    var effects: seq<Effect>
    const encoder: string -> Option<string>
    const anonymize: User -> User

    /** Every stored user is filed under its own id, below the next id to assign. */
    ghost predicate Valid()
      reads this
    {
      forall id :: id in users ==> id < nextId && users[id].userId == id
    }

    constructor (encoder: string -> Option<string>, anonymize: User -> User)
      ensures Valid()
      ensures users == map[] && nextId == 0 && effects == []
      ensures this.encoder == encoder && this.anonymize == anonymize
    {
      users := map[];
      nextId := 0;
      effects := [];
      this.encoder := encoder;
      this.anonymize := anonymize;
    }

    /** Signup: uniqueness, then encoding, then save, then the cart call. A uniqueness
        or encoder failure saves nothing; a failed save gives InternalServerError; a
        failed cart call is reported after the user has been saved. */
    method CreateUser(req: CreateUserRequest, saveOk: bool, cart: RemoteOutcome) returns (r: Result<UserId, UserError>)
      requires Valid()
      modifies this
      ensures Valid()
      ensures r.Failure? && IsUniquenessError(r.error) <==> !ClashFree(old(users), req)
      ensures !ClashFree(old(users), req) ==>
                && unchanged(this)
                && exists id :: id in old(users) && SharesUniqueField(old(users)[id], req)
                                && Some(r.error) == UniquenessViolation(Some(old(users)[id]), req)
      ensures ClashFree(old(users), req) && encoder(req.password).None? ==>
                r == Failure(EncoderException) && unchanged(this)
      ensures ClashFree(old(users), req) && encoder(req.password).Some? && !saveOk ==>
                r == Failure(InternalServerError) && unchanged(this)
      ensures ClashFree(old(users), req) && encoder(req.password).Some? && saveOk ==>
                var saved := BuildUser(req, old(nextId), encoder(req.password).value);
                && users == old(users)[old(nextId) := saved]
                && nextId == old(nextId) + 1
                && effects == old(effects) + [Saved(saved), CartRequested(old(nextId))]
                && old(nextId) !in old(users)
                && r == CartResult(old(nextId), cart)
                && GetUserInfo(old(nextId)) == Success(InfoOf(saved))
    {
      var found := FindFirstByUniqueFields(users, req);
      var violation := UniquenessViolation(found, req);
      UniquenessPrecedence(found, req);
      if violation.Some? {
        return Failure(violation.value);
      }
      var encoded := encoder(req.password);
      if encoded.None? {
        return Failure(EncoderException);
      }
      if !saveOk {
        return Failure(InternalServerError);
      }
      var saved := BuildUser(req, nextId, encoded.value);
      users := users[nextId := saved];
      effects := effects + [Saved(saved), CartRequested(nextId)];
      nextId := nextId + 1;
      r := CartResult(saved.userId, cart);
    }

    /** Withdrawal: an unknown user is refused with nothing done; otherwise the user is
        anonymized, then deleted, then the logout call is made, and a failed logout is
        reported after the anonymization and the delete have happened. */
    method WithdrawMembership(userId: UserId, logout: RemoteOutcome) returns (r: Result<(), UserError>)
      requires Valid()
      modifies this
      ensures Valid()
      ensures userId !in old(users) ==> r == Failure(UserNotFound) && unchanged(this)
      ensures userId in old(users) ==>
                && users == old(users) - {userId}
                && nextId == old(nextId)
                && effects == old(effects) + [Anonymized(userId), Deleted(anonymize(old(users)[userId])), LogoutRequested]
                && r == LogoutResult(logout)
                && GetUserInfo(userId) == Failure(UserNotFound)
    {
      if userId !in users {
        return Failure(UserNotFound);
      }
      var user := users[userId];
      var anonymized := anonymize(user);
      users := users[userId := anonymized];
      effects := effects + [Anonymized(userId)];
      users := users - {userId};
      effects := effects + [Deleted(anonymized)];
      effects := effects + [LogoutRequested];
      r := LogoutResult(logout);
    }

    /** Profile lookup: an unknown id gives UserNotFound, a known one its profile. */
    function GetUserInfo(userId: UserId): Result<UserInfo, UserError>
      reads this
    {
      if userId in users then Success(InfoOf(users[userId])) else Failure(UserNotFound)
    }
  }
}
