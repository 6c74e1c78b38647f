/** The address book service: listing, add, update and delete of a user's addresses.
    Each operation is specified by a function from the table before to the result and
    the table after (AddOutcome, UpdateOutcome, DeleteOutcome); the lemmas state what
    the operations promise about that function; the class AddressBook performs the
    operations step by step as the service does and is proved against the functions. */
module AddressService {
  import opened Common
  import opened AddressEntity
  import opened AddressStore

  /** What an operation returns, and the table it leaves behind. */
  datatype Outcome<R> = Outcome(result: Result<R, AddressError>, rows: seq<AddressRow>)

  /** The response of an update: the address as it now stands. */
  datatype AddressView = AddressView(alias: string, address: string, addressDetail: string, isDefault: bool)

  /** One entry of the listing. */
  datatype ListedAddress = ListedAddress(
    addressId: AddressId, alias: string, address: string, addressDetail: string, isDefault: bool)

  const DeletedMessage: string := "Address deleted successfully"

  /** The update response: the four fields the response is built from, and neither the
      owner nor the deletion mark. */
  function ViewOf(row: AddressRow): (v: AddressView)
    ensures v.alias == row.alias && v.address == row.address
    ensures v.addressDetail == row.addressDetail && v.isDefault == row.isDefault
  {
    AddressView(row.alias, row.address, row.addressDetail, row.isDefault)
  }

  /** The response does not depend on who owns the row or on its deletion mark, and
      it tells apart any two rows that differ in anything else. */
  lemma ViewIgnoresOwnerAndMark(row: AddressRow, owner: UserId, deleted: bool, other: AddressRow)
    ensures ViewOf(row.(owner := owner, deleted := deleted)) == ViewOf(row)
    ensures ViewOf(row) == ViewOf(other) <==> row.(owner := other.owner, deleted := other.deleted) == other
  {
  }

  function ListedOf(rows: seq<AddressRow>, id: AddressId): ListedAddress
    requires id < |rows|
  {
    ListedAddress(id, rows[id].alias, rows[id].address, rows[id].addressDetail, rows[id].isDefault)
  }

  /** All three text fields are non-null, as the non-null columns of the table demand. */
  predicate Complete(req: AddRequest)
  {
    req.alias.Some? && req.address.Some? && req.addressDetail.Some?
  }

  /** The row an add inserts: owned by the user, with the request's texts. */
  function NewRow(req: AddRequest, uid: UserId, isDefault: bool): AddressRow
    requires Complete(req)
  {
    AddressRow(uid, req.alias.value, req.address.value, req.addressDetail.value, isDefault, false)
  }

  /** The flag an add stores: the requested one, forced to true for a user that has no
      live address yet. */
  function FinalDefault(rows: seq<AddressRow>, uid: UserId, req: AddRequest): (b: bool)
    ensures b <==> req.isDefault || !HasLive(rows, uid)
  {
    LiveOfEmptyIff(rows, uid);
    req.isDefault || |LiveOf(rows, uid)| == 0
  }

  /** The table after the previous default, if the query finds exactly one, has been
      cleared: no other row and no other field changes, and when the query found at most
      one default the user has none left. */
  function ClearedDefault(rows: seq<AddressRow>, uid: UserId): (r: seq<AddressRow>)
    ensures |r| == |rows|
    ensures |DefaultsOf(rows, uid)| != 1 ==> r == rows
    ensures forall i :: 0 <= i < |rows| ==>
              r[i] == rows[i] || (IsLiveDefaultOf(rows[i], uid) && r[i] == rows[i].(isDefault := false))
    ensures |DefaultsOf(rows, uid)| <= 1 ==> forall i :: 0 <= i < |rows| ==> !IsLiveDefaultOf(r[i], uid)
  {
    var d := DefaultsOf(rows, uid);
    if |d| == 1 then rows[d[0] := rows[d[0]].(isDefault := false)] else rows
  }

  /** Add: unknown user, then duplicate, are refused first; a new default supersedes
      the old one (cleared before the insert); a failed save, or one of the non-null
      columns left null, is reported as AddressAddFailed after that clearing. */
  function AddOutcome(rows: seq<AddressRow>, users: set<UserId>, req: AddRequest, uid: UserId, storageOk: bool)
    : (o: Outcome<AddressId>)
    ensures o.result.Success? ==> o.result.value == |rows| && |o.rows| == |rows| + 1
    ensures o.result.Failure? ==> |o.rows| == |rows|
    ensures o.result.Failure? ==>
              o.result.error in {UserNotFound, AddressAlreadyExists, DefaultNotUnique, AddressAddFailed}
    ensures o.result.Failure? && o.result.error != AddressAddFailed ==> o.rows == rows
  {
    if uid !in users then Outcome(Failure(UserNotFound), rows)
    else if HasSameAddress(rows, uid, req.address, req.addressDetail) then Outcome(Failure(AddressAlreadyExists), rows)
    else
      var makeDefault := FinalDefault(rows, uid, req);
      if makeDefault && |DefaultsOf(rows, uid)| > 1 then Outcome(Failure(DefaultNotUnique), rows)
      else
        var cleared := if makeDefault then ClearedDefault(rows, uid) else rows;
        if !storageOk || !Complete(req) then Outcome(Failure(AddressAddFailed), cleared)
        else Outcome(Success(|rows|), cleared + [NewRow(req, uid, makeDefault)])
  }

  /** Update: a missing or soft-deleted address is not found; another user's address is
      refused; otherwise the patch is applied to that one row and nothing else. */
  function UpdateOutcome(rows: seq<AddressRow>, id: AddressId, patch: AddressPatch, uid: UserId)
    : (o: Outcome<AddressView>)
    ensures |o.rows| == |rows|
    ensures o.result.Failure? ==> o.rows == rows && o.result.error in {AddressNotFound, AddressAccessDenied}
    ensures forall k :: 0 <= k < |rows| && k != id ==> o.rows[k] == rows[k]
  {
    if !Visible(rows, id) then Outcome(Failure(AddressNotFound), rows)
    else if rows[id].owner != uid then Outcome(Failure(AddressAccessDenied), rows)
    else
      var updated := Patched(rows[id], patch);
      Outcome(Success(ViewOf(updated)), rows[id := updated])
  }

  /** Delete: not found, then access denied, then the default address is refused;
      otherwise the row is soft-deleted. */
  function DeleteOutcome(rows: seq<AddressRow>, id: AddressId, uid: UserId): (o: Outcome<string>)
    ensures |o.rows| == |rows|
    ensures o.result.Failure? ==>
              o.rows == rows && o.result.error in {AddressNotFound, AddressAccessDenied, CannotDeleteDefaultAddress}
    ensures o.result.Success? ==>
              o.result.value == DeletedMessage && id < |rows| && o.rows[id] == rows[id].(deleted := true)
    ensures forall k :: 0 <= k < |rows| && k != id ==> o.rows[k] == rows[k]
  {
    if !Visible(rows, id) then Outcome(Failure(AddressNotFound), rows)
    else if rows[id].owner != uid then Outcome(Failure(AddressAccessDenied), rows)
    else if rows[id].isDefault then Outcome(Failure(CannotDeleteDefaultAddress), rows)
    else Outcome(Success(DeletedMessage), rows[id := rows[id].(deleted := true)])
  }

  // ---------------------------------------------------------------------------
  // Helpers

  /** Two tables that agree, index by index, on which rows are live and which are live
      defaults of `u`, and whose extra rows are not `u`'s, agree on the invariant. */
  lemma InvariantTransfer(a: seq<AddressRow>, b: seq<AddressRow>, u: UserId)
    requires |a| <= |b|
    requires forall i :: 0 <= i < |a| ==> (IsLiveOf(a[i], u) <==> IsLiveOf(b[i], u))
    requires forall i :: 0 <= i < |a| ==> (IsLiveDefaultOf(a[i], u) <==> IsLiveDefaultOf(b[i], u))
    requires forall i :: |a| <= i < |b| ==> !IsLiveOf(b[i], u)
    ensures DefaultInvariant(a, u) <==> DefaultInvariant(b, u)
  {
  }

  // ---------------------------------------------------------------------------
  // Add

  /** The unknown user is refused first, then the duplicate; neither changes the table. */
  lemma AddRefusals(rows: seq<AddressRow>, users: set<UserId>, req: AddRequest, uid: UserId, storageOk: bool)
    ensures uid !in users ==> AddOutcome(rows, users, req, uid, storageOk) == Outcome(Failure(UserNotFound), rows)
    ensures uid in users && HasSameAddress(rows, uid, req.address, req.addressDetail) ==>
              AddOutcome(rows, users, req, uid, storageOk) == Outcome(Failure(AddressAlreadyExists), rows)
  {
  }

  /** The first address of a user is stored as the default whatever flag was requested,
      and the rest of the table is untouched. */
  lemma AddFirstAddressIsDefault(rows: seq<AddressRow>, users: set<UserId>, req: AddRequest, uid: UserId)
    requires uid in users && Complete(req)
    requires !HasLive(rows, uid)
    ensures AddOutcome(rows, users, req, uid, true) == Outcome(Success(|rows|), rows + [NewRow(req, uid, true)])
  {
    LiveOfEmptyIff(rows, uid);
    DefaultsOfEmptyIff(rows, uid);
  }

  /** When the stored flag is the default one, the new address is afterwards the user's
      only live default. */
  lemma AddNewDefaultIsOnlyDefault(rows: seq<AddressRow>, users: set<UserId>, req: AddRequest, uid: UserId, storageOk: bool)
    requires AddOutcome(rows, users, req, uid, storageOk).result.Success?
    requires FinalDefault(rows, uid, req)
    ensures AddOutcome(rows, users, req, uid, storageOk).result.value == |rows|
    ensures var after := AddOutcome(rows, users, req, uid, storageOk).rows;
            forall i :: 0 <= i < |after| ==> (IsLiveDefaultOf(after[i], uid) <==> i == |rows|)
    ensures DefaultInvariant(AddOutcome(rows, users, req, uid, storageOk).rows, uid)
  {
    var after := AddOutcome(rows, users, req, uid, storageOk).rows;
    assert after == ClearedDefault(rows, uid) + [NewRow(req, uid, true)];
    assert HasDefault(after, uid) by {
      assert IsLiveDefaultOf(after[|rows|], uid);
    }
  }

  /** A non-default request by a user who already has addresses stores a non-default
      address and leaves every existing row, flags included, as it was. */
  lemma AddNonDefaultKeepsFlags(rows: seq<AddressRow>, users: set<UserId>, req: AddRequest, uid: UserId, storageOk: bool)
    requires !req.isDefault && HasLive(rows, uid)
    requires AddOutcome(rows, users, req, uid, storageOk).result.Success?
    ensures AddOutcome(rows, users, req, uid, storageOk).rows == rows + [NewRow(req, uid, false)]
  {
  }

  /** Apart from the previous default's flag, which a default add clears, no existing row
      changes; a successful add appends exactly the new row and returns its id. */
  lemma AddChangesOnlyOldDefault(rows: seq<AddressRow>, users: set<UserId>, req: AddRequest, uid: UserId, storageOk: bool)
    ensures var o := AddOutcome(rows, users, req, uid, storageOk);
            && |o.rows| == (if o.result.Success? then |rows| + 1 else |rows|)
            && (forall i :: 0 <= i < |rows| && o.rows[i] != rows[i] ==>
                  FinalDefault(rows, uid, req) && IsLiveDefaultOf(rows[i], uid)
                  && o.rows[i] == rows[i].(isDefault := false))
            && (o.result.Success? ==>
                  o.result.value == |rows| && Complete(req)
                  && o.rows[|rows|] == NewRow(req, uid, FinalDefault(rows, uid, req)))
  {
  }

  /** An add to a table that keeps the invariant never meets more than one default. */
  lemma AddUnderInvariantFindsOneDefault(rows: seq<AddressRow>, users: set<UserId>, req: AddRequest, uid: UserId, storageOk: bool)
    requires DefaultInvariant(rows, uid)
    ensures AddOutcome(rows, users, req, uid, storageOk).result != Failure(DefaultNotUnique)
  {
    DefaultInvariantByCount(rows, uid);
  }

  /** A successful add keeps the invariant of every user that had it. */
  lemma AddPreservesInvariant(rows: seq<AddressRow>, users: set<UserId>, req: AddRequest, uid: UserId, storageOk: bool, u: UserId)
    requires AddOutcome(rows, users, req, uid, storageOk).result.Success?
    requires DefaultInvariant(rows, u)
    ensures DefaultInvariant(AddOutcome(rows, users, req, uid, storageOk).rows, u)
  {
    var after := AddOutcome(rows, users, req, uid, storageOk).rows;
    var makeDefault := FinalDefault(rows, uid, req);
    if u != uid {
      InvariantTransfer(rows, after, u);
    } else if makeDefault {
      AddNewDefaultIsOnlyDefault(rows, users, req, uid, storageOk);
    } else {
      assert after == rows + [NewRow(req, uid, false)];
      var l := LiveOf(rows, uid);
      assert IsLiveOf(rows[l[0]], uid);
      var j :| 0 <= j < |rows| && IsLiveDefaultOf(rows[j], uid);
      assert IsLiveDefaultOf(after[j], uid);
    }
  }

  /** Every add keeps the invariant of every user that had it, except an add whose save
      fails after the previous default was cleared. */
  lemma AddKeepsInvariantUnlessSaveFails(rows: seq<AddressRow>, users: set<UserId>, req: AddRequest, uid: UserId, storageOk: bool, u: UserId)
    requires DefaultInvariant(rows, u)
    requires AddOutcome(rows, users, req, uid, storageOk).result != Failure(AddressAddFailed)
    ensures DefaultInvariant(AddOutcome(rows, users, req, uid, storageOk).rows, u)
  {
    if AddOutcome(rows, users, req, uid, storageOk).result.Success? {
      AddPreservesInvariant(rows, users, req, uid, storageOk, u);
    }
  }

  /** Without rollback, a default add whose save fails, by a user who already has
      addresses and a default, clears that default and leaves the user with live
      addresses and no default. */
  lemma AddFailedSaveLosesDefault(rows: seq<AddressRow>, users: set<UserId>, req: AddRequest, uid: UserId)
    requires uid in users && req.isDefault
    requires !HasSameAddress(rows, uid, req.address, req.addressDetail)
    requires DefaultInvariant(rows, uid) && HasLive(rows, uid)
    ensures AddOutcome(rows, users, req, uid, false).result == Failure(AddressAddFailed)
    ensures !DefaultInvariant(AddOutcome(rows, users, req, uid, false).rows, uid)
    ensures HasLive(AddOutcome(rows, users, req, uid, false).rows, uid)
    ensures !HasDefault(AddOutcome(rows, users, req, uid, false).rows, uid)
  {
    DefaultInvariantByCount(rows, uid);
    var after := AddOutcome(rows, users, req, uid, false).rows;
    var i :| 0 <= i < |rows| && IsLiveOf(rows[i], uid);
    assert IsLiveOf(after[i], uid);
  }

  // ---------------------------------------------------------------------------
  // Update

  /** Not found comes before access denied; both leave the table unchanged. */
  lemma UpdateRefusals(rows: seq<AddressRow>, id: AddressId, patch: AddressPatch, uid: UserId)
    ensures !Visible(rows, id) ==> UpdateOutcome(rows, id, patch, uid) == Outcome(Failure(AddressNotFound), rows)
    ensures Visible(rows, id) && rows[id].owner != uid ==>
              UpdateOutcome(rows, id, patch, uid) == Outcome(Failure(AddressAccessDenied), rows)
  {
  }

  /** A successful update changes the target row to the patched row and no other row,
      and its response shows the row as it now stands. */
  lemma UpdateTouchesOnlyTarget(rows: seq<AddressRow>, id: AddressId, patch: AddressPatch, uid: UserId)
    requires UpdateOutcome(rows, id, patch, uid).result.Success?
    ensures var o := UpdateOutcome(rows, id, patch, uid);
            && Visible(rows, id) && rows[id].owner == uid
            && |o.rows| == |rows|
            && o.rows[id] == Patched(rows[id], patch)
            && (forall k :: 0 <= k < |rows| && k != id ==> o.rows[k] == rows[k])
            && o.result.value == ViewOf(o.rows[id])
  {
  }

  /** An update that leaves the flag alone keeps every user's invariant. */
  lemma UpdateKeepingFlagPreservesInvariant(rows: seq<AddressRow>, id: AddressId, patch: AddressPatch, uid: UserId, u: UserId)
    requires patch.isDefault.None?
    requires DefaultInvariant(rows, u)
    ensures DefaultInvariant(UpdateOutcome(rows, id, patch, uid).rows, u)
  {
    InvariantTransfer(rows, UpdateOutcome(rows, id, patch, uid).rows, u);
  }

  /** Setting the flag on a non-default address does not clear the user's current
      default: two live defaults result. */
  lemma UpdateCanLeaveTwoDefaults(rows: seq<AddressRow>, id: AddressId, patch: AddressPatch, uid: UserId)
    requires Visible(rows, id) && rows[id].owner == uid && !rows[id].isDefault
    requires HasDefault(rows, uid)
    requires patch.isDefault == Some(true)
    ensures UpdateOutcome(rows, id, patch, uid).result.Success?
    ensures !AtMostOneDefault(UpdateOutcome(rows, id, patch, uid).rows, uid)
  {
    var after := UpdateOutcome(rows, id, patch, uid).rows;
    var j :| 0 <= j < |rows| && IsLiveDefaultOf(rows[j], uid);
    assert j != id;
    assert IsLiveDefaultOf(after[j], uid) && IsLiveDefaultOf(after[id], uid);
  }

  /** Clearing the flag of the user's only default leaves live addresses and no default. */
  lemma UpdateCanLeaveNoDefault(rows: seq<AddressRow>, id: AddressId, patch: AddressPatch, uid: UserId)
    requires Visible(rows, id) && IsLiveDefaultOf(rows[id], uid)
    requires AtMostOneDefault(rows, uid)
    requires patch.isDefault == Some(false)
    ensures UpdateOutcome(rows, id, patch, uid).result.Success?
    ensures !DefaultInvariant(UpdateOutcome(rows, id, patch, uid).rows, uid)
    ensures HasLive(UpdateOutcome(rows, id, patch, uid).rows, uid)
    ensures !HasDefault(UpdateOutcome(rows, id, patch, uid).rows, uid)
  {
    var after := UpdateOutcome(rows, id, patch, uid).rows;
    assert IsLiveOf(after[id], uid);
  }

  // ---------------------------------------------------------------------------
  // Delete

  /** Not found, then access denied, then the refusal to delete the default address;
      none of them changes the table. */
  lemma DeleteRefusals(rows: seq<AddressRow>, id: AddressId, uid: UserId)
    ensures !Visible(rows, id) ==> DeleteOutcome(rows, id, uid) == Outcome(Failure(AddressNotFound), rows)
    ensures Visible(rows, id) && rows[id].owner != uid ==>
              DeleteOutcome(rows, id, uid) == Outcome(Failure(AddressAccessDenied), rows)
    ensures Visible(rows, id) && rows[id].owner == uid && rows[id].isDefault ==>
              DeleteOutcome(rows, id, uid) == Outcome(Failure(CannotDeleteDefaultAddress), rows)
  {
  }

  /** Deleting one's own non-default address soft-deletes exactly that row and returns
      the success message. */
  lemma DeleteSoftDeletes(rows: seq<AddressRow>, id: AddressId, uid: UserId)
    requires Visible(rows, id) && rows[id].owner == uid && !rows[id].isDefault
    ensures DeleteOutcome(rows, id, uid) ==
            Outcome(Success("Address deleted successfully"), rows[id := rows[id].(deleted := true)])
  {
  }

  /** After a delete the row is seen by no query: not by lookup, not in any user's
      listing or defaults, and a further update or delete of it is not found. */
  lemma DeletedIsInvisible(rows: seq<AddressRow>, id: AddressId, uid: UserId, patch: AddressPatch, caller: UserId, u: UserId)
    requires DeleteOutcome(rows, id, uid).result.Success?
    ensures var after := DeleteOutcome(rows, id, uid).rows;
            && !Visible(after, id)
            && id !in LiveOf(after, u) && id !in DefaultsOf(after, u)
            && UpdateOutcome(after, id, patch, caller) == Outcome(Failure(AddressNotFound), after)
            && DeleteOutcome(after, id, caller) == Outcome(Failure(AddressNotFound), after)
  {
  }

  /** Under the invariant a user's only live address is the default, so it can never be
      deleted. */
  lemma OnlyAddressIsNeverDeleted(rows: seq<AddressRow>, id: AddressId, uid: UserId)
    requires DefaultInvariant(rows, uid)
    requires Visible(rows, id) && rows[id].owner == uid
    requires forall i :: 0 <= i < |rows| && IsLiveOf(rows[i], uid) ==> i == id
    ensures DeleteOutcome(rows, id, uid).result == Failure(CannotDeleteDefaultAddress)
  {
    assert IsLiveOf(rows[id], uid);
    var j :| 0 <= j < |rows| && IsLiveDefaultOf(rows[j], uid);
    assert j == id;
  }

  /** Every delete keeps the invariant of every user that had it. */
  lemma DeletePreservesInvariant(rows: seq<AddressRow>, id: AddressId, uid: UserId, u: UserId)
    requires DefaultInvariant(rows, u)
    ensures DefaultInvariant(DeleteOutcome(rows, id, uid).rows, u)
  {
    var after := DeleteOutcome(rows, id, uid).rows;
    if DeleteOutcome(rows, id, uid).result.Success? {
      if u != uid {
        InvariantTransfer(rows, after, u);
      } else {
        if HasLive(after, u) {
          var i :| 0 <= i < |after| && IsLiveOf(after[i], u);
          assert IsLiveOf(rows[i], u);
          var j :| 0 <= j < |rows| && IsLiveDefaultOf(rows[j], u);
          assert j != id;
          assert IsLiveDefaultOf(after[j], u);
        }
      }
    }
  }

  /** The address book of the service: the address table and the set of known users. */
  class AddressBook {
    var rows: seq<AddressRow>
    const users: set<UserId>

    constructor (users: set<UserId>)
      ensures rows == [] && this.users == users
    {
      rows := [];
      this.users := users;
    }

    /** The user's live addresses in id order; a read failure of the store gives
        AddressReadFailed. */
    method GetCustomerAddresses(userId: UserId, readOk: bool) returns (r: Result<seq<ListedAddress>, AddressError>)
      ensures r.Failure? <==> !readOk
      ensures r.Failure? ==> r.error == AddressReadFailed
      ensures r.Success? ==>
                && |r.value| == |LiveOf(rows, userId)|
                && (forall k :: 0 <= k < |r.value| ==>
                      Visible(rows, r.value[k].addressId) && rows[r.value[k].addressId].owner == userId
                      && r.value[k] == ListedOf(rows, r.value[k].addressId))
                && (forall id: AddressId :: Visible(rows, id) && rows[id].owner == userId ==>
                      exists k :: 0 <= k < |r.value| && r.value[k].addressId == id)
                && (forall a, b :: 0 <= a < b < |r.value| ==> r.value[a].addressId < r.value[b].addressId)
    {
      if !readOk {
        return Failure(AddressReadFailed);
      }
      var table := rows;
      var ids := LiveOf(table, userId);
      var listed := seq(|ids|, k requires 0 <= k < |ids| => ListedOf(table, ids[k]));
      forall id: AddressId | Visible(rows, id) && rows[id].owner == userId
        ensures exists k :: 0 <= k < |listed| && listed[k].addressId == id
      {
        assert IsLiveOf(rows[id], userId);
        var k :| 0 <= k < |ids| && ids[k] == id;
        assert listed[k].addressId == id;
      }
      r := Success(listed);
    }

    method AddCustomerAddress(req: AddRequest, userId: UserId, storageOk: bool) returns (r: Result<AddressId, AddressError>)
      modifies this
      ensures Outcome(r, rows) == AddOutcome(old(rows), users, req, userId, storageOk)
      ensures r.Success? && old(AllDefaultInvariants(rows)) ==> AllDefaultInvariants(rows)
    {
      ghost var before := rows;
      if userId !in users {
        return Failure(UserNotFound);
      }
      if HasSameAddress(rows, userId, req.address, req.addressDetail) {
        return Failure(AddressAlreadyExists);
      }
      var finalIsDefault := req.isDefault;
      if !finalIsDefault {
        if |LiveOf(rows, userId)| == 0 {
          finalIsDefault := true;
        }
      }
      if finalIsDefault {
        var defaults := DefaultsOf(rows, userId);
        if |defaults| > 1 {
          return Failure(DefaultNotUnique);
        }
        if |defaults| == 1 {
          var existingDefault := new UserAddress.Load(rows[defaults[0]]);
          existingDefault.SetDefault(false);
          rows := rows[defaults[0] := existingDefault.Row()];
        }
      }
      if !storageOk || req.alias.None? || req.address.None? || req.addressDetail.None? {
        return Failure(AddressAddFailed);
      }
      var address := new UserAddress.Build(userId, req.alias.value, req.address.value, req.addressDetail.value, finalIsDefault);
      rows := rows + [address.Row()];
      r := Success(|rows| - 1);
      forall u: UserId | DefaultInvariant(before, u)
        ensures DefaultInvariant(rows, u)
      {
        AddPreservesInvariant(before, users, req, userId, storageOk, u);
      }
    }

    method UpdateAddress(addressId: AddressId, patch: AddressPatch, userId: UserId) returns (r: Result<AddressView, AddressError>)
      modifies this
      ensures Outcome(r, rows) == UpdateOutcome(old(rows), addressId, patch, userId)
    {
      if !Visible(rows, addressId) {
        return Failure(AddressNotFound);
      }
      if rows[addressId].owner != userId {
        return Failure(AddressAccessDenied);
      }
      var entity := new UserAddress.Load(rows[addressId]);
      var updated := entity.Update(patch);
      rows := rows[addressId := updated.Row()];
      r := Success(ViewOf(updated.Row()));
    }

    method DeleteAddress(addressId: AddressId, userId: UserId) returns (r: Result<string, AddressError>)
      modifies this
      ensures Outcome(r, rows) == DeleteOutcome(old(rows), addressId, userId)
      ensures old(AllDefaultInvariants(rows)) ==> AllDefaultInvariants(rows)
    {
      ghost var before := rows;
      if !Visible(rows, addressId) {
        return Failure(AddressNotFound);
      }
      if rows[addressId].owner != userId {
        return Failure(AddressAccessDenied);
      }
      if rows[addressId].isDefault {
        return Failure(CannotDeleteDefaultAddress);
      }
      rows := rows[addressId := rows[addressId].(deleted := true)];
      r := Success(DeletedMessage);
      forall u: UserId | DefaultInvariant(before, u)
        ensures DefaultInvariant(rows, u)
      {
        DeletePreservesInvariant(before, addressId, userId, u);
      }
    }
  }
}
