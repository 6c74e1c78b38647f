/** The request validators of the address endpoints, and the add and update endpoints,
    which validate before they call the address book. */
module AddressController {
  import opened Common
  import opened AddressEntity
  import opened AddressService

  /** Java's Character.isWhitespace: the Unicode space, line and paragraph separators
      other than the three no-break spaces (U+00A0, U+2007, U+202F), and the controls
      U+0009 to U+000D and U+001C to U+001F. */
  function IsWhitespace(c: char): (b: bool)
    ensures c == ' ' || c == '\t' || c == '\n' || c == '\r' ==> b
    ensures c as int == 0xA0 || c as int == 0x2007 || c as int == 0x202F ==> !b
    ensures '0' <= c <= '9' || 'A' <= c <= 'Z' || 'a' <= c <= 'z' ==> !b
  {
    var n := c as int;
    || n == 0x20 || n == 0x1680 || (0x2000 <= n <= 0x2006) || (0x2008 <= n <= 0x200A)
    || n == 0x205F || n == 0x3000 || n == 0x2028 || n == 0x2029
    || (0x09 <= n <= 0x0D) || (0x1C <= n <= 0x1F)
  }

  /** Spring's hasText: non-null and holding at least one non-whitespace character. */
  function HasText(s: Option<string>): (b: bool)
    ensures b ==> s.Some? && |s.value| > 0
  {
    s.Some? && exists i :: 0 <= i < |s.value| && !IsWhitespace(s.value[i])
  }

  /** The add validator: alias, then address, then detail must have text. */
  function ValidateAddRequest(req: AddRequest): (r: Option<AddressError>)
    ensures r.None? <==> HasText(req.alias) && HasText(req.address) && HasText(req.addressDetail)
    ensures r.None? ==> Complete(req)
    ensures r.Some? ==>
              r.value == AddressAliasInvalid || r.value == AddressAddressInvalid || r.value == AddressDetailInvalid
  {
    if !HasText(req.alias) then Some(AddressAliasInvalid)
    else if !HasText(req.address) then Some(AddressAddressInvalid)
    else if !HasText(req.addressDetail) then Some(AddressDetailInvalid)
    else None
  }

  /** The update validator: refuses a patch whose three text fields are all null. */
  function ValidateUpdateRequest(patch: AddressPatch): (r: Option<AddressError>)
    ensures r.Some? ==> r.value == AddressUpdateFailed
    ensures IsEmptyPatch(patch) ==> r.Some?
    ensures patch.alias.Some? || patch.address.Some? || patch.addressDetail.Some? ==> r.None?
  {
    if patch.alias.None? && patch.address.None? && patch.addressDetail.None? then Some(AddressUpdateFailed)
    else None
  }

  /** The alias is checked first, then the address, then the detail. */
  lemma AddValidationOrder(req: AddRequest)
    ensures !HasText(req.alias) ==> ValidateAddRequest(req) == Some(AddressAliasInvalid)
    ensures HasText(req.alias) && !HasText(req.address) ==> ValidateAddRequest(req) == Some(AddressAddressInvalid)
    ensures HasText(req.alias) && HasText(req.address) && !HasText(req.addressDetail) ==>
              ValidateAddRequest(req) == Some(AddressDetailInvalid)
  {
  }

  /** A present text has no text exactly when all its characters are whitespace; null
      and empty texts have none, and a text with a visible character has. */
  lemma HasTextCases(s: string)
    ensures !HasText(None)
    ensures !HasText(Some(""))
    ensures (forall i :: 0 <= i < |s| ==> IsWhitespace(s[i])) <==> !HasText(Some(s))
    ensures HasText(Some(s + "a"))
  {
    assert !IsWhitespace((s + "a")[|s|]);
  }

  /** Update validation fails exactly when the three text fields are all null, whatever
      the flag says: a flag-only patch is refused, and empty strings pass. */
  lemma UpdateValidationCases(patch: AddressPatch, flag: bool)
    ensures ValidateUpdateRequest(patch).Some? <==>
              patch.alias.None? && patch.address.None? && patch.addressDetail.None?
    ensures ValidateUpdateRequest(patch).Some? ==> ValidateUpdateRequest(patch).value == AddressUpdateFailed
    ensures ValidateUpdateRequest(AddressPatch(None, None, None, Some(flag))) == Some(AddressUpdateFailed)
    ensures ValidateUpdateRequest(AddressPatch(Some(""), None, None, None)) == None
    ensures ValidateUpdateRequest(AddressPatch(None, Some(""), None, None)) == None
    ensures ValidateUpdateRequest(AddressPatch(None, None, Some(""), None)) == None
  {
  }

  /** The add endpoint: a request that fails validation never reaches the service and
      leaves the table as it was. */
  method AddCustomerAddress(book: AddressBook, req: AddRequest, userId: UserId, storageOk: bool)
    returns (r: Result<AddressId, AddressError>)
    modifies book
    ensures ValidateAddRequest(req).Some? ==>
              r == Failure(ValidateAddRequest(req).value) && book.rows == old(book.rows)
    ensures ValidateAddRequest(req).None? ==>
              Outcome(r, book.rows) == AddOutcome(old(book.rows), book.users, req, userId, storageOk)
  {
    var invalid := ValidateAddRequest(req);
    if invalid.Some? {
      return Failure(invalid.value);
    }
    r := book.AddCustomerAddress(req, userId, storageOk);
  }

  /** The update endpoint: a patch that fails validation never reaches the service. */
  method UpdateCustomerAddress(book: AddressBook, addressId: AddressId, patch: AddressPatch, userId: UserId)
    returns (r: Result<AddressView, AddressError>)
    modifies book
    ensures ValidateUpdateRequest(patch).Some? ==>
              r == Failure(AddressUpdateFailed) && book.rows == old(book.rows)
    ensures ValidateUpdateRequest(patch).None? ==>
              Outcome(r, book.rows) == UpdateOutcome(old(book.rows), addressId, patch, userId)
  {
    var invalid := ValidateUpdateRequest(patch);
    if invalid.Some? {
      return Failure(invalid.value);
    }
    r := book.UpdateAddress(addressId, patch, userId);
  }
}
