/** The response objects the handlers build. Create, GetById and Update of a
    consumer all answer with the same twelve fields, so one datatype stands
    for CreateConsumerCommandResponse, GetConsumerByIdCommandResponse and
    UpdateConsumerCommandResponse; likewise one for the address responses. */
module Responses {
  import opened Wrappers
  import opened Primitives
  import opened ConsumerEntity
  import opened AddressEntity

  datatype ConsumerResponse = ConsumerResponse(
    id: Guid,
    name: string,
    documentId: string,
    photoUrl: Option<string>,
    phoneNumber: string,
    email: string,
    currencyId: Guid,
    phoneCountryCodeId: Guid,
    preferredLanguageId: Guid,
    timezoneId: Guid,
    createdAt: Instant,
    updatedAt: Instant)
  {
    /** The nine data fields, in the shape of the arguments that set them. */
    function Data(): ConsumerData {
      ConsumerData(Some(name), Some(documentId), photoUrl, Some(phoneNumber), Some(email),
                   currencyId, phoneCountryCodeId, preferredLanguageId, timezoneId)
    }
  }

  datatype AddressResponse = AddressResponse(
    id: Guid,
    consumerId: Guid,
    streetAddress: Option<string>,
    city: Option<string>,
    state: Option<string>,
    postalCode: Option<string>,
    latitude: Option<Coordinate>,
    longitude: Option<Coordinate>,
    isDefault: bool,
    countryId: Guid,
    createdAt: Instant,
    updatedAt: Instant)

  /** The object initializer the consumer handlers share: every scalar
      property of the entity, and neither its navigation references nor its
      addresses. */
  function FromConsumer(c: Consumer): (r: ConsumerResponse)
    ensures r.id == c.id && r.Data() == c.Data()
    ensures r.createdAt == c.createdAt && r.updatedAt == c.updatedAt
  {
    ConsumerResponse(c.id, c.name, c.documentId, c.photoUrl, c.phoneNumber, c.email,
                     c.currencyId, c.phoneCountryCodeId, c.preferredLanguageId, c.timezoneId,
                     c.createdAt, c.updatedAt)
  }

  /** Two consumers give the same response exactly when they differ at most in
      what the response leaves out. */
  lemma FromConsumerForgetsOnlyNavigation(c1: Consumer, c2: Consumer)
    ensures FromConsumer(c1) == FromConsumer(c2) <==>
      c1 == c2.(currency := c1.currency, phoneCountryCode := c1.phoneCountryCode,
                preferredLanguage := c1.preferredLanguage, timezone := c1.timezone,
                addresses := c1.addresses)
  {
    if FromConsumer(c1) == FromConsumer(c2) {
      assert c1.Data() == c2.Data();
    }
  }

  /** The data fields a response carries. */
  function ResponseData(r: AddressResponse): AddressData {
    AddressData(r.streetAddress, r.city, r.state, r.postalCode, r.latitude, r.longitude, r.isDefault, r.countryId)
  }

  /** The object initializer the address handlers share: every scalar
      property of the entity. */
  function FromAddress(a: Address): (r: AddressResponse)
    ensures r.id == a.id && r.consumerId == a.consumerId
    ensures ResponseData(r) == a.Data()
    ensures r.createdAt == a.createdAt && r.updatedAt == a.updatedAt
  {
    AddressResponse(a.id, a.consumerId, a.streetAddress, a.city, a.state, a.postalCode,
                    a.latitude, a.longitude, a.isDefault, a.countryId, a.createdAt, a.updatedAt)
  }

  /** An address response loses nothing: the entity can be rebuilt from it. */
  lemma FromAddressIsLossless(a: Address)
    ensures var r := FromAddress(a);
      AddressEntity.Create(r.consumerId, ResponseData(r), r.id, r.createdAt, r.updatedAt) == a
  {
  }

  /** The list handler's projection: one response per address, in order. */
  function FromAddresses(addresses: seq<Address>): (r: seq<AddressResponse>)
    ensures |r| == |addresses|
    ensures forall i | 0 <= i < |r| :: r[i] == FromAddress(addresses[i])
  {
    seq(|addresses|, i requires 0 <= i < |addresses| => FromAddress(addresses[i]))
  }

  /** Every listed address has its response in the projection. */
  lemma FromAddressesCovers(addresses: seq<Address>)
    ensures forall a | a in addresses :: FromAddress(a) in FromAddresses(addresses)
  {
    var r := FromAddresses(addresses);
    forall a | a in addresses
      ensures FromAddress(a) in r
    {
      var i :| 0 <= i < |addresses| && addresses[i] == a;
      assert r[i] == FromAddress(a);
    }
  }
}
