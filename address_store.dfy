/** The address table as the repository queries see it: a sequence of rows whose
    index is the address id, where soft-deleted rows are invisible to every query,
    and the default-address invariant stated over it. */
module AddressStore {
  import opened Common
  import opened AddressEntity

  predicate IsLiveOf(row: AddressRow, uid: UserId)
  {
    !row.deleted && row.owner == uid
  }

  predicate IsLiveDefaultOf(row: AddressRow, uid: UserId)
  {
    IsLiveOf(row, uid) && row.isDefault
  }

  /** Point lookup by id: only live rows are found. */
  function Visible(rows: seq<AddressRow>, id: AddressId): (b: bool)
    ensures b <==> id < |rows| && id in LiveOf(rows, rows[id].owner)
  {
    id < |rows| && !rows[id].deleted
  }

  ghost predicate Increasing(ids: seq<AddressId>)
  {
    forall a, b :: 0 <= a < b < |ids| ==> ids[a] < ids[b]
  }

  /** The user's live addresses, in id order (the per-user listing query). */
  function LiveOf(rows: seq<AddressRow>, uid: UserId): (ids: seq<AddressId>)
    ensures forall k :: 0 <= k < |ids| ==> ids[k] < |rows| && IsLiveOf(rows[ids[k]], uid)
    ensures forall i :: 0 <= i < |rows| && IsLiveOf(rows[i], uid) ==> i in ids
    ensures Increasing(ids)
  {
    if |rows| == 0 then []
    else
      var init := LiveOf(rows[..|rows| - 1], uid);
      if IsLiveOf(rows[|rows| - 1], uid) then init + [|rows| - 1] else init
  }

  /** The user's live default addresses, in id order (the query behind the lookup of
      the current default, which expects at most one). */
  function DefaultsOf(rows: seq<AddressRow>, uid: UserId): (ids: seq<AddressId>)
    ensures forall k :: 0 <= k < |ids| ==> ids[k] < |rows| && IsLiveDefaultOf(rows[ids[k]], uid)
    ensures forall i :: 0 <= i < |rows| && IsLiveDefaultOf(rows[i], uid) ==> i in ids
    ensures Increasing(ids)
  {
    if |rows| == 0 then []
    else
      var init := DefaultsOf(rows[..|rows| - 1], uid);
      if IsLiveDefaultOf(rows[|rows| - 1], uid) then init + [|rows| - 1] else init
  }

  /** The duplicate check: a live address of the user with the same address line and
      detail. A null field matches no stored row. */
  function HasSameAddress(rows: seq<AddressRow>, uid: UserId, address: Option<string>, detail: Option<string>): (b: bool)
    ensures address.None? || detail.None? ==> !b
    ensures b ==> && address.Some? && detail.Some?
                  && exists i :: 0 <= i < |rows| && IsLiveOf(rows[i], uid)
                                 && rows[i].address == address.value && rows[i].addressDetail == detail.value
    ensures address.Some? && detail.Some? && !b ==>
              forall i :: 0 <= i < |rows| && IsLiveOf(rows[i], uid) ==>
                rows[i].address != address.value || rows[i].addressDetail != detail.value
  {
    && address.Some? && detail.Some?
    && exists i :: 0 <= i < |rows| && IsLiveOf(rows[i], uid)
                   && rows[i].address == address.value && rows[i].addressDetail == detail.value
  }

  ghost predicate HasLive(rows: seq<AddressRow>, uid: UserId)
  {
    exists i :: 0 <= i < |rows| && IsLiveOf(rows[i], uid)
  }

  ghost predicate HasDefault(rows: seq<AddressRow>, uid: UserId)
  {
    exists i :: 0 <= i < |rows| && IsLiveDefaultOf(rows[i], uid)
  }

  ghost predicate AtMostOneDefault(rows: seq<AddressRow>, uid: UserId)
  {
    forall i, j ::
      (0 <= i < |rows| && 0 <= j < |rows| && IsLiveDefaultOf(rows[i], uid) && IsLiveDefaultOf(rows[j], uid))
      ==> i == j
  }

  /** Among the user's live addresses at most one is default, and exactly one once there
      is any. */
  ghost predicate DefaultInvariant(rows: seq<AddressRow>, uid: UserId)
  {
    AtMostOneDefault(rows, uid) && (HasLive(rows, uid) ==> HasDefault(rows, uid))
  }

  /** The invariant for every user of the table. */
  ghost predicate AllDefaultInvariants(rows: seq<AddressRow>)
  {
    forall uid: UserId :: DefaultInvariant(rows, uid)
  }

  /** The listing query is empty exactly when the user has no live address. */
  lemma LiveOfEmptyIff(rows: seq<AddressRow>, uid: UserId)
    ensures |LiveOf(rows, uid)| == 0 <==> !HasLive(rows, uid)
  {
  }

  /** The default query is empty exactly when the user has no live default. */
  lemma DefaultsOfEmptyIff(rows: seq<AddressRow>, uid: UserId)
    ensures |DefaultsOf(rows, uid)| == 0 <==> !HasDefault(rows, uid)
  {
  }

  /** The invariant read as a count: the number of live defaults is 0 for a user without
      live addresses and 1 for any other user. */
  lemma DefaultInvariantByCount(rows: seq<AddressRow>, uid: UserId)
    ensures DefaultInvariant(rows, uid) <==>
            |DefaultsOf(rows, uid)| == (if |LiveOf(rows, uid)| == 0 then 0 else 1)
  {
    var d, l := DefaultsOf(rows, uid), LiveOf(rows, uid);
    LiveOfEmptyIff(rows, uid);
    DefaultsOfEmptyIff(rows, uid);
    assert AtMostOneDefault(rows, uid) <==> |d| <= 1 by {
      if |d| > 1 {
        assert d[0] < d[1];
        assert IsLiveDefaultOf(rows[d[0]], uid) && IsLiveDefaultOf(rows[d[1]], uid);
      }
      if |d| <= 1 {
        forall i, j | 0 <= i < |rows| && 0 <= j < |rows| && IsLiveDefaultOf(rows[i], uid)
                      && IsLiveDefaultOf(rows[j], uid)
          ensures i == j
        {
          assert i in d && j in d;
        }
      }
    }
  }
}
