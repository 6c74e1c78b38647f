# Customer addresses, signup and withdrawal of the order-platform user service

This project models the core of the user microservice of an order platform. It
covers four parts.

- **The address book of a customer.** Addresses can be listed, added, patched and
  soft-deleted. A successful add and every delete keep one default address per
  customer. An add whose save fails after the old default was cleared can leave
  none, because rollback is not modelled. An update can leave two defaults or none. The first address of a customer always becomes the
  default. A new default address clears the previous default before it is inserted.
  A default address cannot be deleted. Soft-deleted rows are invisible to every
  query.
- **The request validators** of the address endpoints, which run before the
  service is called.
- **Signup and withdrawal.** This covers the current user service and the older
  copy that still ships beside it. Both check uniqueness with the same error
  precedence. Both encode the password and then save the user. The current service
  maps a cart call that ends in an HTTP error status to CREATE_CART_FAILED; the older
  one lets it escape. In both services a failure below HTTP escapes. In the
  current service, withdrawal anonymizes the user, deletes them and then logs them
  out, and a failed logout is reported after the anonymization and the delete have
  happened. The older service anonymizes and deletes, and never logs out.
- **The Server-Authorization header reader** of the gRPC server.

Module layout:

- `common.dfy` holds Option and Result.
- `address_entity.dfy` holds the address row, the patch and the `UserAddress`
  entity class with its in-place `Update`, `UnsetAsDefault` and setter.
- `address_store.dfy` models the table as the repository queries see it: the listing
  query, the default query, the duplicate check, and the default-address invariant.
- `address_service.dfy` holds the specification functions `AddOutcome`,
  `UpdateOutcome` and `DeleteOutcome`, and the lemmas about them. Its `AddressBook`
  class performs each operation step by step, as the service does, and is proved
  against those functions.
- `address_controller.dfy` holds the validators and the two endpoints that validate
  before they call the address book.
- `user_model.dfy` holds the user, the request, the error and effect vocabulary, and
  the uniqueness decision shared by both user services.
- `user_service.dfy` and `legacy_user_service.dfy` hold the two user services as
  classes over a user table, a next-id counter and a log of effects.
- `server_token_reader.dfy` holds the header reader.

Collaborators are modelled as follows:

- The user table, the address table and the set of known users are class fields.
- The password encoder and the anonymization step are function-valued fields.
- A storage failure is a boolean parameter.
- The cart and auth HTTP calls are a `RemoteOutcome` parameter: a response, an HTTP
  error status, or a failure below HTTP.
- The JWT decoder and converter are function parameters that give none where the
  collaborator throws.

Only the calls and effects are modelled. Each effect on another service is recorded
in order in an `effects` log.

An address id is the row's index in the table. A user id is a natural number.
`DefaultNotUnique` stands for the storage error raised when the single-result
default query meets two defaults. That state is reachable, because
`UserAddress.update` can set a second default without clearing the first.

## Model

| member | source | states |
|---|---|---|
| AddressEntity.UserAddress.Update | src/main/java/app/domain/user/model/entity/UserAddress.java:55-69 | each non-null patch field is assigned and each null one leaves its field; owner and deletion mark untouched; returns the same object; the new row is `Patched` of the old |
| AddressEntity.UserAddress.UnsetAsDefault | src/main/java/app/domain/user/model/entity/UserAddress.java:71-73 | the flag becomes false and no other field changes |
| AddressEntity.UserAddress.SetDefault | src/main/java/app/domain/customer/CustomerAddressService.java:62 | the generated setter changes the flag to the given value and no other field |
| AddressEntity.UserAddress.Load | src/main/java/app/domain/customer/CustomerAddressService.java:60-61 | the entity the repository hands out carries exactly the stored row |
| AddressEntity.UserAddress.Build | src/main/java/app/domain/customer/CustomerAddressService.java:67-73 | the built entity is a live row owned by the user with the given texts and flag |
| AddressEntity.Patched | src/main/java/app/domain/user/model/entity/UserAddress.java:55-69 | the row an update leaves: per field, a non-null patch value overwrites and a null one keeps; owner and deletion mark never change; an all-null patch leaves the row unchanged |
| AddressEntity.PatchIdempotent | src/main/java/app/domain/user/model/entity/UserAddress.java:55-69 | applying the same patch twice gives the same row as applying it once |
| AddressStore.Visible | src/main/java/app/domain/user/model/entity/UserAddress.java:30-31 | the lookup by id finds a row exactly when it exists and is in its owner's listing, i.e. it is not soft-deleted |
| AddressStore.LiveOf | src/main/java/app/domain/user/model/entity/UserAddress.java:30-31 | the listing query returns exactly the user's non-deleted rows, without repeats; the model lists them in insertion order |
| AddressStore.DefaultsOf | src/main/java/app/domain/user/model/entity/UserAddress.java:30-31 | the default query returns exactly the user's non-deleted default rows, without repeats, in insertion order |
| AddressStore.HasSameAddress | src/main/java/app/domain/customer/CustomerAddressService.java:47 | the duplicate check: true only for a live row of the user with the same address and detail; a null address or detail matches nothing; false means no live row of the user matches both |
| AddressStore.LiveOfEmptyIff | src/main/java/app/domain/customer/CustomerAddressService.java:54 | the listing is empty exactly when the user has no live address |
| AddressStore.DefaultsOfEmptyIff | src/main/java/app/domain/customer/CustomerAddressService.java:60-61 | the default query is empty exactly when the user has no live default |
| AddressStore.DefaultInvariantByCount | src/main/java/app/domain/customer/CustomerAddressService.java:51-65 | the single-default invariant holds exactly when the user has 0 live defaults with no live address and 1 otherwise |
| AddressService.FinalDefault | src/main/java/app/domain/customer/CustomerAddressService.java:51-57 | the stored flag is true exactly when the request asks for the default or the user has no live address yet |
| AddressService.ClearedDefault | src/main/java/app/domain/customer/CustomerAddressService.java:59-65 | clearing keeps the table's length, changes only the flag of a live default of the user, changes nothing unless the query finds exactly one default, and leaves the user no live default when it found at most one |
| AddressService.AddOutcome | src/main/java/app/domain/customer/CustomerAddressService.java:43-85 | the add as a function of the table: a success returns the new id and appends one row; a failure is one of UserNotFound, AddressAlreadyExists, DefaultNotUnique, AddressAddFailed, and only AddressAddFailed can leave the table changed |
| AddressService.ViewOf | src/main/java/app/domain/customer/dto/response/UpdateCustomerAddressResponse.java:21-28 | the update response carries the row's alias, address, detail and flag |
| AddressService.ViewIgnoresOwnerAndMark | src/main/java/app/domain/customer/dto/response/UpdateCustomerAddressResponse.java:21-28 | the update response is the same whatever the row's owner and deletion mark, and two rows give the same response exactly when they differ in nothing else |
| AddressService.UpdateOutcome | src/test/java/app/service/CustomerAddressServiceTest.java:143-194 | the update as a function of the table: the table keeps its length, no row but the target changes, and a failure is AddressNotFound or AddressAccessDenied with the table unchanged |
| AddressService.DeleteOutcome | src/test/java/app/service/CustomerAddressServiceTest.java:197-244 | the delete as a function of the table: a failure is one of three errors with the table unchanged; a success returns the message and marks only the target deleted |
| AddressService.AddRefusals | src/main/java/app/domain/customer/CustomerAddressService.java:45-49 | unknown user gives UserNotFound, then a live duplicate of address and detail gives AddressAlreadyExists; neither changes the table |
| AddressService.AddFirstAddressIsDefault | src/main/java/app/domain/customer/CustomerAddressService.java:51-57 | a user with no live address gets the new address stored as default whatever the request's flag, and nothing else changes |
| AddressService.AddNewDefaultIsOnlyDefault | src/main/java/app/domain/customer/CustomerAddressService.java:59-76 | when the final flag is default, the new row is afterwards the user's only live default and the invariant holds for that user |
| AddressService.AddNonDefaultKeepsFlags | src/main/java/app/domain/customer/CustomerAddressService.java:51-76 | a non-default request by a user who has addresses appends a non-default row and leaves every existing row as it was |
| AddressService.AddChangesOnlyOldDefault | src/main/java/app/domain/customer/CustomerAddressService.java:51-84 | apart from the cleared flag of the previous default, no existing row changes; a success appends exactly the new row with the request's texts, owned by the user, and returns its id |
| AddressService.AddUnderInvariantFindsOneDefault | src/main/java/app/domain/customer/CustomerAddressService.java:60-64 | on a table that keeps the invariant, the default lookup never meets two defaults |
| AddressService.AddPreservesInvariant | src/main/java/app/domain/customer/CustomerAddressService.java:51-76 | a successful add keeps the single-default invariant of every user who had it |
| AddressService.AddKeepsInvariantUnlessSaveFails | src/main/java/app/domain/customer/CustomerAddressService.java:45-84 | every add outcome other than AddressAddFailed keeps the single-default invariant of every user who had it |
| AddressService.AddFailedSaveLosesDefault | src/main/java/app/domain/customer/CustomerAddressService.java:59-84 | without rollback of the transaction, a default add by a user who has addresses and a default, whose save fails, reports AddressAddFailed after the old default was cleared and leaves the user with addresses and no default |
| AddressService.UpdateRefusals | src/test/java/app/service/CustomerAddressServiceTest.java:164-194 | a missing or deleted address gives AddressNotFound, then another user's address gives AddressAccessDenied; neither changes the table |
| AddressService.UpdateTouchesOnlyTarget | src/test/java/app/service/CustomerAddressServiceTest.java:147-161 | a successful update replaces the target row by its patched row, changes no other row, and returns the row as it now stands |
| AddressService.UpdateKeepingFlagPreservesInvariant | src/main/java/app/domain/user/model/entity/UserAddress.java:55-64 | an update that leaves the flag null keeps every user's invariant |
| AddressService.UpdateCanLeaveTwoDefaults | src/main/java/app/domain/user/model/entity/UserAddress.java:65-67 | setting the flag on a non-default address while a default exists succeeds and leaves two live defaults |
| AddressService.UpdateCanLeaveNoDefault | src/main/java/app/domain/user/model/entity/UserAddress.java:65-67 | clearing the flag of the only default succeeds and leaves live addresses with no default |
| AddressService.DeleteRefusals | src/test/java/app/service/CustomerAddressServiceTest.java:217-244 | not found, then access denied, then CannotDeleteDefaultAddress for the default; none changes the table |
| AddressService.DeleteSoftDeletes | src/test/java/app/service/CustomerAddressServiceTest.java:201-214 | deleting one's own non-default address marks exactly that row deleted and returns "Address deleted successfully" |
| AddressService.DeletedIsInvisible | src/main/java/app/domain/user/model/entity/UserAddress.java:30-31 | after a delete the row is in no lookup, listing or default query, and a further update or delete of it is not found |
| AddressService.OnlyAddressIsNeverDeleted | src/test/java/app/service/CustomerAddressServiceTest.java:217-230 | under the invariant, a user's only live address is the default and its delete is refused with CannotDeleteDefaultAddress |
| AddressService.DeletePreservesInvariant | src/test/java/app/service/CustomerAddressServiceTest.java:201-244 | every delete, refused or not, keeps the single-default invariant of every user who had it |
| AddressService.AddressBook.GetCustomerAddresses | src/main/java/app/domain/customer/CustomerAddressService.java:28-39 | a read failure gives AddressReadFailed; otherwise the entries are exactly the user's live addresses, each with its own fields, once each, in the model's insertion order |
| AddressService.AddressBook.AddCustomerAddress | src/main/java/app/domain/customer/CustomerAddressService.java:41-85 | performs the add step by step and ends with the result and table `AddOutcome` gives; a success keeps every user's invariant |
| AddressService.AddressBook.UpdateAddress | src/test/java/app/service/CustomerAddressServiceTest.java:143-194 | ends with the result and table `UpdateOutcome` gives |
| AddressService.AddressBook.DeleteAddress | src/test/java/app/service/CustomerAddressServiceTest.java:197-244 | ends with the result and table `DeleteOutcome` gives, and keeps every user's invariant |
| AddressController.IsWhitespace | src/main/java/app/domain/customer/CustomerAddressController.java:56 | Java's whitespace test used by hasText: space, tab, line feed and carriage return are whitespace; the three no-break spaces, digits and Latin letters are not |
| AddressController.HasText | src/main/java/app/domain/customer/CustomerAddressController.java:56 | hasText: a text with text is present and non-empty |
| AddressController.HasTextCases | src/main/java/app/domain/customer/CustomerAddressController.java:56-63 | a present text has no text exactly when all its characters are whitespace; null and empty texts have none; a text with a visible character has |
| AddressController.ValidateAddRequest | src/main/java/app/domain/customer/CustomerAddressController.java:55-65 | the add validator passes exactly when alias, address and detail all have text, a passing request fills all three non-null columns, and a refusal is one of the three field errors |
| AddressController.AddValidationOrder | src/main/java/app/domain/customer/CustomerAddressController.java:55-65 | alias without text gives AddressAliasInvalid first, then address, then detail |
| AddressController.ValidateUpdateRequest | src/main/java/app/domain/customer/CustomerAddressController.java:78-82 | the update validator refuses only with AddressUpdateFailed, refuses an all-null patch, and passes any patch with a non-null text field |
| AddressController.UpdateValidationCases | src/main/java/app/domain/customer/CustomerAddressController.java:78-82 | update validation fails with AddressUpdateFailed exactly when alias, address and detail are all null; a flag-only patch is refused; empty strings pass |
| AddressController.AddCustomerAddress | src/main/java/app/domain/customer/CustomerAddressController.java:48-53 | a request that fails validation gets that error and the table is unchanged; otherwise the address book's add outcome |
| AddressController.UpdateCustomerAddress | src/main/java/app/domain/customer/CustomerAddressController.java:69-76 | a patch that fails validation gets AddressUpdateFailed and the table is unchanged; otherwise the address book's update outcome |
| UserModel.UniquenessViolation | src/main/java/app/domain/user/UserService.java:92-111 | the uniqueness decision shared by both services (also src/main/java/app/user/UserService.java:91-111): an error exactly when a user was found that shares a unique field, and the error is always one of the four uniqueness errors |
| UserModel.UniquenessPrecedence | src/main/java/app/domain/user/UserService.java:92-111 | no error when nothing is found; otherwise username, then email, then nickname, then phone decide the error |
| UserModel.FindFirstByUniqueFields | src/main/java/app/user/model/UserRepositoryCustom.java:8 | finds none exactly when no stored user shares a unique field; a found user is stored and shares one |
| UserModel.BuildUser | src/main/java/app/domain/user/UserService.java:44-52 | the built user has the assigned id and the encoded password, and clashes with its own request on the username |
| UserModel.InfoOf | src/main/java/app/domain/user/model/dto/response/GetUserInfoResponse.java:39-51 | the profile carries the user's id, username, email, nickname, real name, phone number and role |
| UserModel.ProfileOmitsPassword | src/main/java/app/domain/user/model/dto/response/GetUserInfoResponse.java:39-51 | the profile does not depend on the password, and two users have the same profile exactly when they differ in nothing else |
| UserModel.BuiltUserCarriesRequest | src/main/java/app/domain/user/UserService.java:44-52 | the saved user carries the request's fields, the encoded password and the assigned id, and its profile reads back the request's fields |
| UserModel.SavedUserBlocksSameRequest | src/main/java/app/domain/user/UserService.java:40-57 | once a signup has saved its user, the same request clashes, and that user yields UserAlreadyExists |
| UserModel.RemovalAndClashes | src/main/java/app/domain/user/UserService.java:76 | deleting a user never creates a clash, and frees a request that clashed only with that user |
| UserService.CartResult | src/main/java/app/domain/user/UserService.java:54-64 | signup succeeds, with the saved id, exactly when the cart service responds; CreateCartFailed exactly for an HTTP error status |
| UserService.LogoutResult | src/main/java/app/domain/user/UserService.java:77-82 | withdrawal succeeds exactly when the auth service responds; LogoutFailed exactly for an HTTP error status |
| UserService.UserService.CreateUser | src/main/java/app/domain/user/UserService.java:37-65 | a clash gives a uniqueness error and saves nothing; then an encoder failure, then a save failure (InternalServerError), each with nothing saved; otherwise the user is saved under a fresh id, the cart is requested, the cart outcome decides the result, and the profile reads back |
| UserService.UserService.WithdrawMembership | src/main/java/app/domain/user/UserService.java:68-83 | an unknown user gives UserNotFound with nothing done; otherwise anonymize, delete and logout happen in that order, the user is gone, and the logout outcome decides the result |
| UserService.UserService.GetUserInfo | src/main/java/app/domain/user/UserService.java:85-90 | an unknown id gives UserNotFound, a known one the fields of that user |
| LegacyUserService.UserService.CreateUser | src/main/java/app/user/UserService.java:42-67 | the same checks and effects in the same order; only a save failure is mapped (InternalServerError), and any failed cart call escapes after the user was saved |
| LegacyUserService.UserService.WithdrawMembership | src/main/java/app/user/UserService.java:70-83 | an unknown current user gives UserNotFound with nothing done; otherwise the user is anonymized and deleted, and no logout happens |
| ServerTokenReader.ExtractToken | src/main/java/app/domain/user/grpc/GrpcServerTokenInterceptor.java:36-43 | a token exists exactly for a present header starting with "Server ", and "Server " plus the token is the header |
| ServerTokenReader.ExtractTokenRoundTrip | src/main/java/app/domain/user/grpc/GrpcServerTokenInterceptor.java:37-43 | a prefixed token reads back as that token; a missing or too short header is refused |
| ServerTokenReader.PrefixIsExact | src/main/java/app/domain/user/grpc/GrpcServerTokenInterceptor.java:37 | whatever follows, a header starting "server " or "Bearer " is refused, and so is "Server" not followed by a space; a bare "Server " gives the empty token |
| ServerTokenReader.ReadAuthentication | src/main/java/app/domain/user/grpc/GrpcServerTokenInterceptor.java:35-50 | the reader fails with MissingOrInvalidHeader exactly when no token can be extracted; a success is the conversion of the decoded extracted token |
| ServerTokenReader.ReadAuthenticationCases | src/main/java/app/domain/user/grpc/GrpcServerTokenInterceptor.java:35-50 | a missing or malformed header fails before decoding; a success is exactly a decoded and converted token, the token being the header minus its prefix |
| ServerTokenReader.ReadPrefixedToken | src/main/java/app/domain/user/grpc/GrpcServerTokenInterceptor.java:42-49 | any decode or convert failure becomes TokenValidationFailed; otherwise the converted authentication is returned |

## Left out

- Transactions are not rolled back. Each service method is modelled as its steps in
  order. A failure after a step keeps that step's effect. Examples: a failed address
  save after the old default was cleared, a failed cart call after the user was
  saved, a failed logout after the delete. With rollback these effects would be
  undone in the database, but not the remote calls.
- Concurrency and locking are not modelled; each operation runs alone.
- CustomerAddressService at this revision defines neither `updateAddress` nor
  `deleteAddress`, though the controller calls them (CustomerAddressController.java:74,
  :89); their behaviour follows the service's tests. The access check on delete
  is placed between not-found and the default refusal; no test fixes that order.
- Address ids are UUIDs in the service and row indices here. User ids are `Long`
  values taken from the authentication name; here they are natural numbers passed
  in, and parsing the name is not modelled.
- A save that returns a null id is merged with a failing save in the `storageOk`
  parameter; both give AddressAddFailed.
- The listing order is left to the database, since the listing query has no order
  clause and ids are random UUIDs; the model lists rows in insertion order.
- Storage failures outside the add's try block escape unmapped in the service and are
  not modelled: the user lookup, the duplicate query, the listing read that decides
  the first address, the default lookup (other than meeting two defaults, modelled as
  DefaultNotUnique) and the save of the cleared old default
  (CustomerAddressService.java:45, :47, :54, :60, :63).
- The column length limit of 50 on the alias is not modelled.
- The listing response type is not part of this model; its entry is assumed to carry
  the id, alias, address, detail and flag.
- The user's sex and birthdate in the profile response, and the user entity and its
  `anonymizeForWithdrawal` body, are not part of this model; anonymization is an
  opaque function.
- The roles assumed are Customer, Owner and Manager.
- UserService.UserService.CreateUser: a storage exception raised inside the cart call
  would also be mapped to InternalServerError; the model raises that error only for
  the save.
- ServerTokenReader.ReadAuthenticationCases: a converter that returns null instead of
  throwing is not modelled; the converter either gives an authentication or fails.
- The legacy `getUserInfo` reads the current user from the security context, which is
  not part of this model.
- The events listener, the manager and internal services, the gRPC user-info
  service, configuration and bootstrap are outside the modelled core.
- Password hashing, JWT decoding and conversion, and the HTTP clients are opaque
  collaborators or call outcomes, as described above.
- Logging is left out.
