/** The address entity of the user service (table p_user_address): its stored value,
    the partial patch an update request carries, the request and error vocabulary of
    the address book, and the entity object with its in-place mutators. */
module AddressEntity {
  import opened Common

  type UserId = nat
  type AddressId = nat

  /** One row of the address table. `deleted` stands for a non-null deleted_at column:
      a soft-deleted row stays in the table but no query sees it. */
  datatype AddressRow = AddressRow(
    owner: UserId,
    alias: string,
    address: string,
    addressDetail: string,
    isDefault: bool,
    deleted: bool)

  /** The body of an update request; every field may be null (None). */
  datatype AddressPatch = AddressPatch(
    alias: Option<string>,
    address: Option<string>,
    addressDetail: Option<string>,
    isDefault: Option<bool>)

  /** The body of an add request: three nullable strings and a primitive flag. */
  datatype AddRequest = AddRequest(
    alias: Option<string>,
    address: Option<string>,
    addressDetail: Option<string>,
    isDefault: bool)

  /** The error codes callers of the address book see. DefaultNotUnique is not a status
      of the service: it is the storage exception the single-result default query raises
      when it finds more than one default row, which the service does not catch. */
  datatype AddressError =
    | UserNotFound
    | AddressAlreadyExists
    | AddressAddFailed
    | AddressReadFailed
    | AddressNotFound
    | AddressAccessDenied
    | CannotDeleteDefaultAddress
    | DefaultNotUnique
    | AddressAliasInvalid
    | AddressAddressInvalid
    | AddressDetailInvalid
    | AddressUpdateFailed

  /** The value a nullable patch field leaves in a field. */
  function Overwrite<T>(current: T, patch: Option<T>): T
  {
    match patch
    case Some(v) => v
    case None => current
  }

  /** The row that an update with patch `p` leaves behind: each non-null patch field
      overwrites its field, each null one leaves it, the owner and the deletion mark
      are never touched, and an all-null patch changes nothing. */
  function Patched(row: AddressRow, p: AddressPatch): (r: AddressRow)
    ensures r.owner == row.owner && r.deleted == row.deleted
    ensures r.alias == (if p.alias.Some? then p.alias.value else row.alias)
    ensures r.address == (if p.address.Some? then p.address.value else row.address)
    ensures r.addressDetail == (if p.addressDetail.Some? then p.addressDetail.value else row.addressDetail)
    ensures r.isDefault == (if p.isDefault.Some? then p.isDefault.value else row.isDefault)
    ensures IsEmptyPatch(p) ==> r == row
  {
    row.(alias := Overwrite(row.alias, p.alias),
         address := Overwrite(row.address, p.address),
         addressDetail := Overwrite(row.addressDetail, p.addressDetail),
         isDefault := Overwrite(row.isDefault, p.isDefault))
  }

  predicate IsEmptyPatch(p: AddressPatch)
  {
    p.alias.None? && p.address.None? && p.addressDetail.None? && p.isDefault.None?
  }

  /** Applying the same patch twice is applying it once. */
  lemma PatchIdempotent(row: AddressRow, p: AddressPatch)
    ensures Patched(Patched(row, p), p) == Patched(row, p)
  {
  }

  /** The entity object. The service loads one from a row, mutates it in place and
      stores its value back. */
  class UserAddress {
    var owner: UserId
    var alias: string
    var address: string
    var addressDetail: string
    var isDefault: bool
    var deleted: bool

    /** The entity as a stored value. */
    function Row(): AddressRow
      reads this
    {
      AddressRow(owner, alias, address, addressDetail, isDefault, deleted)
    }

    /** The builder: a new live entity. */
    constructor Build(owner: UserId, alias: string, address: string, addressDetail: string, isDefault: bool)
      ensures Row() == AddressRow(owner, alias, address, addressDetail, isDefault, false)
    {
      this.owner := owner;
      this.alias := alias;
      this.address := address;
      this.addressDetail := addressDetail;
      this.isDefault := isDefault;
      this.deleted := false;
    }

    /** The entity the repository hands out for a stored row. */
    constructor Load(row: AddressRow)
      ensures Row() == row
    {
      owner := row.owner;
      alias := row.alias;
      address := row.address;
      addressDetail := row.addressDetail;
      isDefault := row.isDefault;
      deleted := row.deleted;
    }

    /** Partial update: each non-null field of the patch is assigned; the entity itself
        is returned. Nothing outside this entity changes, so setting the flag does not
        clear the flag of any other address. */
    method Update(p: AddressPatch) returns (r: UserAddress)
      modifies this
      ensures r == this
      ensures Row() == Patched(old(Row()), p)
    {
      if p.alias.Some? {
        alias := p.alias.value;
      }
      if p.address.Some? {
        address := p.address.value;
      }
      if p.addressDetail.Some? {
        addressDetail := p.addressDetail.value;
      }
      if p.isDefault.Some? {
        isDefault := p.isDefault.value;
      }
      r := this;
    }

    /** Clears the default flag and nothing else. */
    method UnsetAsDefault()
      modifies this
      ensures !isDefault
      ensures Row() == old(Row()).(isDefault := false)
    {
      isDefault := false;
    }

    /** The generated setter of the flag. */
    method SetDefault(b: bool)
      modifies this
      ensures Row() == old(Row()).(isDefault := b)
    {
      isDefault := b;
    }
  }
}
