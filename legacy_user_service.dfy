/** The older user service: the same uniqueness decision and signup order as the
    current one, but a failed cart call is not caught, and withdrawal of the current
    user anonymizes and deletes without logging out. */
module LegacyUserService {
  import opened Common
  import opened UserModel

  class UserService {
    var users: map<UserId, User>
    var nextId: UserId
    var effects: seq<Effect>
    const encoder: string -> Option<string>
    const anonymize: User -> User

    /** Every stored user is filed under its own id, below the next id to assign. */
    ghost predicate Valid()
      reads this
    {
      forall id :: id in users ==> id < nextId && users[id].userId == id
    }

    constructor (encoder: string -> Option<string>, anonymize: User -> User)
      ensures Valid()
      ensures users == map[] && nextId == 0 && effects == []
      ensures this.encoder == encoder && this.anonymize == anonymize
    {
      users := map[];
      nextId := 0;
      effects := [];
      this.encoder := encoder;
      this.anonymize := anonymize;
    }

    /** Signup: uniqueness, then encoding, then save, then the cart call. Only a failed
        save is mapped (to InternalServerError); any failure of the cart call escapes
        as it is, after the user has been saved. */
    method CreateUser(req: CreateUserRequest, saveOk: bool, cart: RemoteOutcome) returns (r: Result<UserId, UserError>)
      requires Valid()
      modifies this
      ensures Valid()
      ensures r.Failure? && IsUniquenessError(r.error) <==> !ClashFree(old(users), req)
      ensures !ClashFree(old(users), req) ==>
                && unchanged(this)
                && exists id :: id in old(users) && SharesUniqueField(old(users)[id], req)
                                && Some(r.error) == UniquenessViolation(Some(old(users)[id]), req)
      ensures ClashFree(old(users), req) && encoder(req.password).None? ==>
                r == Failure(EncoderException) && unchanged(this)
      ensures ClashFree(old(users), req) && encoder(req.password).Some? && !saveOk ==>
                r == Failure(InternalServerError) && unchanged(this)
      ensures ClashFree(old(users), req) && encoder(req.password).Some? && saveOk ==>
                var saved := BuildUser(req, old(nextId), encoder(req.password).value);
                && users == old(users)[old(nextId) := saved]
                && nextId == old(nextId) + 1
                && effects == old(effects) + [Saved(saved), CartRequested(old(nextId))]
                && r == (if cart == Responded then Success(old(nextId)) else Failure(RemoteCallException))
    {
      var found := FindFirstByUniqueFields(users, req);
      var violation := UniquenessViolation(found, req);
      UniquenessPrecedence(found, req);
      if violation.Some? {
        return Failure(violation.value);
      }
      var encoded := encoder(req.password);
      if encoded.None? {
        return Failure(EncoderException);
      }
      if !saveOk {
        return Failure(InternalServerError);
      }
      var saved := BuildUser(req, nextId, encoded.value);
      users := users[nextId := saved];
      effects := effects + [Saved(saved), CartRequested(nextId)];
      nextId := nextId + 1;
      if cart == Responded {
        r := Success(saved.userId);
      } else {
        r := Failure(RemoteCallException);
      }
    }

    /** Withdrawal of the authenticated user: an unknown id is refused with nothing
        done; otherwise the user is anonymized and then deleted, and nothing else
        happens. */
    method WithdrawMembership(currentUserId: UserId) returns (r: Result<(), UserError>)
      requires Valid()
      modifies this
      ensures Valid()
      ensures currentUserId !in old(users) ==> r == Failure(UserNotFound) && unchanged(this)
      ensures currentUserId in old(users) ==>
                && r == Success(())
                && users == old(users) - {currentUserId}
                && nextId == old(nextId)
                && effects == old(effects) + [Anonymized(currentUserId), Deleted(anonymize(old(users)[currentUserId]))]
    {
      if currentUserId !in users {
        return Failure(UserNotFound);
      }
      var user := users[currentUserId];
      var anonymized := anonymize(user);
      users := users[currentUserId := anonymized];
      effects := effects + [Anonymized(currentUserId)];
      users := users - {currentUserId};
      effects := effects + [Deleted(anonymized)];
      r := Success(());
    }
  }
}
