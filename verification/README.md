# ms_consumers in Dafny

A Dafny model of the core of the ms_consumers service. The service stores
consumers and their postal addresses. The model covers:

- **ConsumerEntity** (`consumer_entity.dfy`, with the two patterns in
  `patterns.dfy`). The constructor and `Update` run one fail-fast
  validation pipeline: name, document id, photo URL, phone number, email,
  then the four lookup ids. A null required string is an
  `ArgumentNullException`. A blank, over-long or malformed one is an
  `ArgumentException` on that parameter. The length caps are 100, 50, 500,
  20 and 255. The phone pattern is `^\+?[1-9]\d{7,14}$` and the email
  pattern is `^[^@\s]+@[^@\s]+\.[^@\s]+$`.
  - Both patterns are written as predicates, and each is proved equal to a
    reading of its regular expression as a language.
  - This includes .NET's `$`, which also matches before one final line
    feed (`ConsumerScenarios.TrailingNewlineAccepted`).
  - The pipeline is proved to report the first broken rule in field order.
- **AddressEntity** (`address_entity.dfy`). It has no validation: the
  constructor copies its arguments, and `Update` overwrites the eight data
  fields and the update time.
- **Repositories** (`consumer_repository.dfy`, `address_repository.dfy`,
  over the generic tables of `tables.dfy`).
  - A table is a sequence of rows in store order, whose ids are meant to be
    unique.
  - Each query and change states what a later `GetById` sees: the row
    itself, or the same as before for every other id. It also states that
    unique ids are kept.
  - `Persistence.OwnersExist` says every address belongs to a stored
    consumer. The address changes keep it when the owner exists, and the
    consumer changes other than delete keep it.
  - `Persistence.NoEmptyIds` says no stored consumer has the empty id.
    Consumers get their ids from `Guid.NewGuid()`, and every change and
    every handler keeps the property.
- **Command handlers** (`consumer_handlers.dfy`, `address_handlers.dfy`,
  `responses.dfy`).
  - Each handler maps a store and a request to a `Persistence.Handled`:
    the store afterwards, the response or the exception thrown, and the
    sequence of repository calls it made.
  - The calls sequence lets the contracts say "nothing is saved when
    validation fails".
  - Lemmas chain handlers: create then get, update then get, delete then
    get.

The repository has two copies of the application layer, `MSConsumers.*` and
`MsConsumers.*`. They are mostly identical. The one behavioural difference
in the core is the consumer update handler: the `MSConsumers` copy refuses
the empty id before asking the repository, and the `MsConsumers` copy does
not. Both are modelled (`ConsumerHandlers.UpdateGuarded`,
`ConsumerHandlers.UpdateUnguarded`), and `ConsumerHandlers.UpdateVersionsAgree`
states how they differ.

Inputs the code reads from the environment are explicit parameters:

- `Guid.NewGuid()` becomes `newId`.
- Each `DateTime.UtcNow` reading becomes `createdAt`, `updatedAt` or `now`.
- The verdict of `Validator.ValidateObject` on a create request becomes
  `annotationsValid`.

Absent strings (`null`) are `None`. `Guid.Empty` is `Primitives.EmptyGuid`.

## Model

| member | source | states |
|---|---|---|
| Patterns.PhoneMatchesIsPattern | MsConsumers.Domain/Entities/ConsumerEntity.cs:132-133 | the executable phone check holds exactly when the string is in the language of `^\+?[1-9]\d{7,14}$`, the `$` allowing one trailing line feed |
| Patterns.PhoneBodyIsLanguage | MsConsumers.Domain/Entities/ConsumerEntity.cs:132 | the anchored body check is exactly "optional '+', a digit 1-9, then 7 to 14 digits" |
| Patterns.PhoneMatchLength | MsConsumers.Domain/Entities/ConsumerEntity.cs:129-133 | a matching phone number has 8 to 17 characters, so the 20-character cap checked before the pattern never decides anything |
| Patterns.EmailMatchesIsPattern | MsConsumers.Domain/Entities/ConsumerEntity.cs:148-149 | the executable email check holds exactly when the string is in the language of `^[^@\s]+@[^@\s]+\.[^@\s]+$`, with the same `$` rule |
| Patterns.EmailBodyIsLanguage | MsConsumers.Domain/Entities/ConsumerEntity.cs:148 | "some '@' splits the string into a run and a domain" is the same as "user run, '@', host run, '.', tld run" |
| Patterns.DomainBodyIsLanguage | MsConsumers.Domain/Entities/ConsumerEntity.cs:148 | the domain check holds exactly when the domain is host run '.' tld run |
| ConsumerEntity.PhoneLimitNeverBinds | MsConsumers.Domain/Entities/ConsumerEntity.cs:121-135 | a present phone number is accepted exactly when it matches the pattern, and otherwise it is rejected as an ArgumentException on phoneNumber |
| ConsumerEntity.EmailNeedsPatternAndLimit | MsConsumers.Domain/Entities/ConsumerEntity.cs:137-151 | a present email is accepted exactly when it matches the pattern and has at most 255 characters |
| ConsumerEntity.PhoneValidatorIsRule | MsConsumers.Domain/Entities/ConsumerEntity.cs:121-135 | the phone validator agrees with the declarative rule (null is ArgumentNull; blank, too long or unmatched is Argument) |
| ConsumerEntity.EmailValidatorIsRule | MsConsumers.Domain/Entities/ConsumerEntity.cs:137-151 | the email validator agrees with the declarative rule |
| ConsumerEntity.ValidateIdsIsFirstBroken | MsConsumers.Domain/Entities/ConsumerEntity.cs:153-166 | the id check reports the first empty id in the order currency, phone country code, language, timezone, or passes when none is empty |
| ConsumerEntity.FirstBrokenIsFirst | MsConsumers.Domain/Entities/ConsumerEntity.cs:40-45 | a fail-fast scan passes iff every rule passes; when it fails, it reports the rule at some position all of whose predecessors pass |
| ConsumerEntity.ValidateIsFirstBroken | MsConsumers.Domain/Entities/ConsumerEntity.cs:40-45 | the six validator calls in sequence equal the fail-fast scan over the nine fields in argument order |
| ConsumerEntity.ValidateReportsFirstBrokenRule | MsConsumers.Domain/Entities/ConsumerEntity.cs:40-45 | validation passes iff every field rule holds; otherwise the reported error is the first broken field's, and every earlier field is fine |
| ConsumerEntity.Create | MsConsumers.Domain/Entities/ConsumerEntity.cs:29-59 | construction succeeds iff the data is valid; a failure carries the pipeline's first error; a success stores exactly the arguments, the fresh id and the clock readings, with no navigation data and no addresses |
| ConsumerEntity.Update | MsConsumers.Domain/Entities/ConsumerEntity.cs:61-89 | update succeeds iff the data is valid; on success the nine fields become the arguments, id, creation time, navigation references and addresses are kept and the update time is `now`; a failure carries the pipeline's first error |
| ConsumerEntity.CreateAndUpdateAgree | MsConsumers.Domain/Entities/ConsumerEntity.cs:72-77 | the constructor and Update accept the same data and report the same error on the rest |
| ConsumerEntity.UpdateWithOwnData | MsConsumers.Domain/Entities/ConsumerEntity.cs:61-89 | updating a valid consumer with its own data changes only the update time |
| ConsumerScenarios.SampleIsAccepted | MsConsumers.UnitTests/Domain/Entities/ConsumerEntityTests.cs:15-50 | the tests' valid data passes validation |
| ConsumerScenarios.EmptyIdsReportCurrency | MsConsumers.UnitTests/Domain/Entities/ConsumerEntityTests.cs:310-333 | with all four ids empty, the error is an ArgumentException on currencyId |
| ConsumerScenarios.LongNameRejected | MsConsumers.UnitTests/Domain/Entities/ConsumerEntityTests.cs:131-154 | a 101-character name is an ArgumentException on name, whatever the other fields hold |
| ConsumerScenarios.NullAndBlankDocumentId | MsConsumers.UnitTests/Domain/Entities/ConsumerEntityTests.cs:156-206 | after a good name, a null document id is ArgumentNull and a blank one is Argument, both on documentId |
| ConsumerScenarios.BadPhonesRejected | MsConsumers.UnitTests/Domain/Entities/ConsumerEntityTests.cs:529-562 | "", " ", "   ", "abc", "123" and a 23-digit string are rejected on phoneNumber |
| ConsumerScenarios.BadEmailsRejected | MsConsumers.UnitTests/Domain/Entities/ConsumerEntityTests.cs:109-129 | "", " ", "invalid-email", "test@" and "@test.com" are rejected on email |
| ConsumerScenarios.NoAtNoMatch | MsConsumers.Domain/Entities/ConsumerEntity.cs:148 | no string without an '@' matches the email pattern |
| ConsumerScenarios.TrailingNewlineAccepted | MsConsumers.Domain/Entities/ConsumerEntity.cs:132-149 | a valid phone number or email followed by one line feed is accepted, as .NET's `$` allows |
| AddressEntity.Create | MsConsumers.Domain/Entities/AddressEntity.cs:77-100 | the address holds exactly the arguments, the fresh id and the two clock readings |
| AddressEntity.Update | MsConsumers.Domain/Entities/AddressEntity.cs:105-124 | the eight data fields become the arguments; id, owner and creation time are kept; the update time is `now` |
| AddressEntity.UpdateLastWriteWins | MsConsumers.Domain/Entities/AddressEntity.cs:105-124 | two updates in a row equal the second alone |
| AddressEntity.UpdateWithOwnData | MsConsumers.Domain/Entities/AddressEntity.cs:105-124 | updating with the address's own data changes only the update time |
| AddressEntity.AddressDeterminedByParts | MsConsumers.Domain/Entities/AddressEntity.cs:77-100 | two addresses are equal iff they agree on data, id, owner and both clock fields |
| Tables.Find | MsConsumers.Infrastructure/Repositories/ConsumerRepository.cs:20-23 | a key lookup finds nothing iff no row has the key, and otherwise a stored row with that key |
| Tables.FindIsMapLookup | MsConsumers.Infrastructure/Repositories/ConsumerRepository.cs:20-23 | on a table with unique keys, the lookup is a map lookup |
| Tables.FindAfterInsert | MsConsumers.Infrastructure/Repositories/ConsumerRepository.cs:30-34 | after appending a row, a lookup finds the old row if the key was taken, the new row if it was not, and is unchanged for other keys |
| Tables.FindAfterReplace | MsConsumers.Infrastructure/Repositories/ConsumerRepository.cs:36-40 | after a replace, the row's key finds the new row (when it was stored) and every other key is unchanged |
| Tables.FindAfterDelete | MsConsumers.Infrastructure/Repositories/ConsumerRepository.cs:42-50 | after a delete, the deleted key finds nothing and every other key is unchanged |
| Tables.Where | MSConsumers.Infrastructure/Repositories/AddressRepository.cs:57-63 | every kept row satisfies the filter and is a row of the table, every table row that satisfies the filter is kept, and the result is no longer than the table |
| Tables.WhereCount | MSConsumers.Infrastructure/Repositories/AddressRepository.cs:57-63 | a filtered row occurs as often as in the table, and a row failing the filter not at all |
| Tables.WhereAppend | MSConsumers.Infrastructure/Repositories/AddressRepository.cs:57-63 | filtering keeps table order: the filter of two concatenated tables is the concatenation of their filters |
| Tables.FirstWhere | MSConsumers.Infrastructure/Repositories/AddressRepository.cs:66-71 | nothing is found iff no row satisfies the filter; otherwise the result is the earliest row that does |
| ConsumerRepository.GetById | MsConsumers.Infrastructure/Repositories/ConsumerRepository.cs:20-23 | null iff no stored consumer has the id; otherwise a stored consumer with that id |
| ConsumerRepository.EmptyIdNotFound | MsConsumers.Infrastructure/Repositories/ConsumerRepository.cs:20-23 | while no stored consumer has the empty id, looking it up finds nothing |
| ConsumerRepository.GetAll | MsConsumers.Infrastructure/Repositories/ConsumerRepository.cs:25-28 | every consumer that can be looked up is listed, and every listed consumer is what its id looks up |
| ConsumerRepository.Add | MsConsumers.Infrastructure/Repositories/ConsumerRepository.cs:30-34 | a consumer with a fresh id becomes retrievable; other ids and the addresses are unaffected; unique ids and address ownership are kept, and so is the absence of empty ids when the new id is not empty |
| ConsumerRepository.Update | MsConsumers.Infrastructure/Repositories/ConsumerRepository.cs:36-40 | the stored consumer with that id is replaced; other ids and the addresses are unaffected; unique ids, ownership and the absence of empty ids are kept |
| ConsumerRepository.ReplaceKeepsNoEmptyIds | MsConsumers.Infrastructure/Repositories/ConsumerRepository.cs:36-40 | a replace brings no empty id into a table that had none |
| ConsumerRepository.Delete | MsConsumers.Infrastructure/Repositories/ConsumerRepository.cs:42-50 | an absent id leaves the store as it was; afterwards the id is not found and every other id is unaffected; unique ids and the absence of empty ids are kept |
| AddressRepository.GetById | MSConsumers.Infrastructure/Repositories/AddressRepository.cs:49-54 | null iff no stored address has the id; otherwise a stored address with that id |
| AddressRepository.GetByConsumerId | MSConsumers.Infrastructure/Repositories/AddressRepository.cs:57-63 | exactly the stored addresses of that consumer: each listed one is owned and stored, each owned one is listed, and each is retrievable by its id |
| AddressRepository.GetByConsumerIdCount | MSConsumers.Infrastructure/Repositories/AddressRepository.cs:57-63 | each of the consumer's addresses is listed as many times as it is stored, and no other address is listed |
| AddressRepository.GetByConsumerIdAfterAdd | MSConsumers.Infrastructure/Repositories/AddressRepository.cs:28-32 | the list keeps store order: after an add, the new address is listed last for its owner and the other consumers' lists are unchanged |
| AddressRepository.GetMainAddressByConsumerId | MSConsumers.Infrastructure/Repositories/AddressRepository.cs:66-71 | null iff the consumer has no default address; otherwise one of its stored default addresses |
| AddressRepository.MainAddressIsTheDefault | MSConsumers.Infrastructure/Repositories/AddressRepository.cs:57-71 | a consumer's only default address is its main address and is among its addresses |
| AddressRepository.Add | MSConsumers.Infrastructure/Repositories/AddressRepository.cs:28-32 | an address with a fresh id becomes retrievable; other ids and the consumers are unaffected; ownership is kept when the owner is stored |
| AddressRepository.Update | MSConsumers.Infrastructure/Repositories/AddressRepository.cs:35-39 | the stored address with that id is replaced; other ids and the consumers are unaffected |
| AddressRepository.Delete | MSConsumers.Infrastructure/Repositories/AddressRepository.cs:42-46 | afterwards the entity's id is not found; other ids and the consumers are unaffected; ownership is kept |
| Responses.FromConsumer | MSConsumers.Application/Commands/Consumer/GetConsumerByIdCommandHandler.cs:49-63 | the response carries the consumer's id, nine data fields and clock fields |
| Responses.FromConsumerForgetsOnlyNavigation | MSConsumers.Application/Commands/Consumer/GetConsumerByIdCommandHandler.cs:49-63 | two consumers give the same response iff they differ only in navigation references and addresses |
| Responses.FromAddress | MSConsumers.Application/Commands/Address/GetAddressByIdCommandHandler.cs:42-56 | the response carries the address's id, owner, clock fields and all eight data fields |
| Responses.FromAddressIsLossless | MSConsumers.Application/Commands/Address/GetAddressByIdCommandHandler.cs:42-56 | the address is rebuilt exactly from its response |
| Responses.FromAddresses | MsConsumers.Application/Commands/Address/GetAddressesByConsumerIdCommandHandler.cs:44-58 | the responses are the addresses' responses, one for one, in order |
| Responses.FromAddressesCovers | MsConsumers.Application/Commands/Address/GetAddressesByConsumerIdCommandHandler.cs:44-58 | every listed address has its response among the responses |
| ConsumerHandlers.CreateConsumer | MsConsumers.Application/Commands/Consumer/CreateConsumerCommandHandler.cs:21-54 | succeeds iff annotations and entity validation both pass; a failure saves nothing and leaves the store as it was; a success makes exactly one add of a consumer that is then retrievable and mirrored by the response; other ids are unaffected; the store invariants, the absence of empty ids included, are kept |
| ConsumerHandlers.GetConsumerById | MSConsumers.Application/Commands/Consumer/GetConsumerByIdCommandHandler.cs:35-64 | the empty id is an ArgumentException before any lookup; otherwise one lookup, then ConsumerNotFound or the stored consumer's response |
| ConsumerHandlers.UpdateFoundAsPromised | MsConsumers.Application/Commands/Consumer/UpdateConsumerCommandHandler.cs:34-72 | after the lookup: not found is ConsumerNotFound; invalid data saves nothing and reports the first validation error; valid data makes one save of the updated consumer, keeping id and creation time |
| ConsumerHandlers.UpdateGuarded | MSConsumers.Application/Commands/Consumer/UpdateConsumerCommandHandler.cs:35-78 | the empty id is refused with no repository call; any other id behaves as promised above; store invariants are kept |
| ConsumerHandlers.UpdateUnguarded | MsConsumers.Application/Commands/Consumer/UpdateConsumerCommandHandler.cs:34-72 | every id, the empty one included, behaves as promised above; store invariants are kept |
| ConsumerHandlers.UpdateVersionsAgree | MSConsumers.Application/Commands/Consumer/UpdateConsumerCommandHandler.cs:37-40 | the two update handlers agree on every non-empty id; on the empty id, in a store holding no consumer with the empty id (which every handler keeps so), one throws ArgumentException with no call, the other ConsumerNotFound after one lookup |
| ConsumerHandlers.DeleteConsumer | MsConsumers.Application/Commands/Consumer/DeleteConsumerCommandHandler.cs:33-44 | a missing consumer is ConsumerNotFound after one lookup; otherwise lookup then delete by id, after which the id is not found and nothing else changes; the absence of empty ids is kept |
| ConsumerHandlers.CreateThenGet | MsConsumers.Application/Commands/Consumer/CreateConsumerCommandHandler.cs:37-53 | after a successful create, getting the new id answers with the create's response |
| ConsumerHandlers.UpdateThenGet | MSConsumers.Application/Commands/Consumer/UpdateConsumerCommandHandler.cs:61-77 | after a successful update, getting the id answers with the update's response |
| ConsumerHandlers.DeleteThenGet | MsConsumers.Application/Commands/Consumer/DeleteConsumerCommandHandler.cs:35-43 | after a successful delete, getting the id is ConsumerNotFound |
| AddressHandlers.CreateAddress | MSConsumers.Application/Commands/Address/CreateAddressCommandHandler.cs:39-76 | an unknown owner is ConsumerNotFound after one lookup; otherwise the new address holds the request and is added, retrievable and mirrored by the response; unique ids, address ownership and the absence of empty ids are kept |
| AddressHandlers.UpdateAddress | MsConsumers.Application/Commands/Address/UpdateAddressCommandHandler.cs:34-70 | an unknown id is AddressNotFound; otherwise the data is overwritten keeping id, owner and creation time, saved once and returned; unique ids, address ownership and the absence of empty ids are kept |
| AddressHandlers.GetAddressesByConsumerId | MsConsumers.Application/Commands/Address/GetAddressesByConsumerIdCommandHandler.cs:35-59 | fails, with AddressNotFound on the empty id, iff the consumer owns no address; otherwise one response per address the repository lists for the consumer, in the same order, so every owned address appears and nothing else |
| AddressHandlers.GetAddressById | MSConsumers.Application/Commands/Address/GetAddressByIdCommandHandler.cs:33-57 | succeeds iff the address is stored, answering with its response; otherwise AddressNotFound on the requested id |
| AddressHandlers.DeleteAddress | MsConsumers.Application/Commands/Address/DeleteAddressCommandHandler.cs:34-45 | an unknown id is AddressNotFound; otherwise the looked-up entity is deleted and nothing else changes; unique ids, address ownership and the absence of empty ids are kept |
| AddressHandlers.CreateThenGet | MSConsumers.Application/Commands/Address/CreateAddressCommandHandler.cs:59-75 | after a successful create, the address is found by id with the same response and is listed among its owner's addresses |
| AddressHandlers.UpdateThenGet | MsConsumers.Application/Commands/Address/UpdateAddressCommandHandler.cs:53-69 | after a successful update, getting the id answers with the update's response |
| AddressHandlers.DeleteThenGet | MsConsumers.Application/Commands/Address/DeleteAddressCommandHandler.cs:36-44 | after a successful delete, getting the id is AddressNotFound |

## Left out

- Patterns.PhoneMatchesIsPattern: `\d` is read as the ASCII digits 0-9. .NET's `\d` also matches other Unicode decimal digits, such as Arabic-Indic digits, so the model rejects some numbers .NET accepts.
- ConsumerEntity.Create: lengths count Unicode scalar values. .NET counts UTF-16 code units, so a string with characters outside the Basic Multilingual Plane is longer in .NET than here. The same holds for ConsumerEntity.Update.
- ConsumerEntity.Create: requires a non-empty fresh id, because `Guid.NewGuid()` is a parameter and the empty GUID is never generated in practice.
- ConsumerHandlers.CreateConsumer: requires that the fresh id is not already stored; a GUID collision is not modelled.
- AddressHandlers.CreateAddress: requires that the fresh id is not already stored, for the same reason.
- ConsumerRepository.GetAll: requires unique ids, which the database's primary key guarantees.
- AddressRepository.Update: on an id that is not stored, the model leaves the table as it was. Entity Framework would throw a concurrency exception when saving. No handler reaches that case.
- ConsumerRepository.Update: on an id that is not stored, the model leaves the table as it was. Entity Framework would throw `DbUpdateConcurrencyException` when saving. No handler reaches that case: both update handlers look the consumer up first.
- AddressRepository.Delete: on an address that is not stored, the model leaves the table as it was. Entity Framework would throw when saving. No handler reaches that case: the delete handler looks the address up first.
- ConsumerRepository.Add: an id that is already stored appends a second row with that id. Entity Framework would throw on the primary key. No handler reaches that case: the create handler requires a fresh id.
- AddressRepository.Add: an id that is already stored appends a second row with that id. Entity Framework would throw on the primary key. No handler reaches that case: the create handler requires a fresh id.
- AddressEntity.Create: the `ConsumerEntity` and `Country` navigation references of an address are not carried. Nothing in the handlers reads them, and the responses do not include them.
- ConsumerHandlers.UpdateVersionsAgree: the empty-id half is stated for stores where `NoEmptyIds` holds. Every handler keeps that property, but a store built some other way, holding a consumer with the empty id, is not covered.
- ConsumerRepository.Delete: deleting a consumer does not remove its addresses. The database's cascade delete, configured in MsConsumersDbContext, is not modelled, so `OwnersExist` is not claimed after a consumer delete.
- Exception messages are not modelled, only the exception kind and the parameter name.
- The DataAnnotations attributes on the create request are not modelled. Their verdict is the boolean `annotationsValid`, and failing it is `ValidationFailed`.
- CreateConsumerCommand, whose attributes decide `annotationsValid`, is not part of this model. The update command declares limits that differ from the entity's: a document id of 20 characters and an email of 100 (MsConsumers.Application/Commands/Consumer/UpdateConsumerCommand.cs:29 and :50), against the entity's 50 and 255. Request-level checks on updates happen outside the handlers and are not modelled.
- The unique indexes on document id, email and phone, the `UniqueConstraintViolationException` raised when they are violated, and the column length and required constraints are not modelled. They live in the database mapping.
- Entity Framework change tracking, `Include` of navigation references and the loading of the `Addresses` collection are not modelled. Navigation references are opaque optional values, and the repositories never fill them.
- Async execution, cancellation tokens and concurrent requests are not modelled. Each handler is one atomic step.
- Latitude and longitude are `double?` in the source and opaque 64-bit values here. No floating-point arithmetic is done on them.
- The controllers, dependency injection and startup code are not modelled. Neither is the parallel `Consumer`/`ConsumerAddress` entity family, which the handlers do not use.
- One version of the GetAddressesByConsumerId handler tests expects an empty list for a consumer with no addresses. The handler as written throws `AddressNotFoundException(Guid.Empty)`, and the model follows the handler.
