/** The exceptions the core raises, as values. */
module Errors {
  import opened Primitives

  /** The `paramName` an argument exception carries: the nine constructor
      parameters of ConsumerEntity, and `Id` (`nameof(request.Id)`) for the
      handlers that reject an empty request id. */
  datatype Param =
    | Name | DocumentId | PhotoUrl | PhoneNumber | Email
    | CurrencyId | PhoneCountryCodeId | PreferredLanguageId | TimezoneId
    | Id

  datatype Error =
      /** `ArgumentNullException(param)`: a required string was null. */
    | ArgumentNull(param: Param)
      /** `ArgumentException(param)`: a value is present but breaks a rule. */
    | Argument(param: Param)
      /** `ConsumerNotFoundException(consumerId)`. */
    | ConsumerNotFound(consumerId: Guid)
      /** `AddressNotFoundException(addressId)`. */
    | AddressNotFound(addressId: Guid)
      /** `ValidationException` from the DataAnnotations check of a request. */
    | ValidationFailed
}
