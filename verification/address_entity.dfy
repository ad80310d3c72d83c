/** AddressEntity: a consumer's address. Unlike ConsumerEntity it performs
    no validation at all: construction copies its arguments and `Update`
    overwrites the eight mutable fields. */
module AddressEntity {
  import opened Wrappers
  import opened Primitives

  /** The eight fields a caller supplies and `Update` overwrites. Strings
      may be null: the entity does not check them. */
  datatype AddressData = AddressData(
    streetAddress: Option<string>,
    city: Option<string>,
    state: Option<string>,
    postalCode: Option<string>,
    latitude: Option<Coordinate>,
    longitude: Option<Coordinate>,
    isDefault: bool,
    countryId: Guid)

  datatype Address = Address(
    id: Guid,
    consumerId: Guid,
    streetAddress: Option<string>,
    city: Option<string>,
    state: Option<string>,
    postalCode: Option<string>,
    latitude: Option<Coordinate>,
    longitude: Option<Coordinate>,
    isDefault: bool,
    countryId: Guid,
    createdAt: Instant,
    updatedAt: Instant)
  {
    /** The mutable part of the address. */
    function Data(): AddressData {
      AddressData(streetAddress, city, state, postalCode, latitude, longitude, isDefault, countryId)
    }
  }

  /** `new AddressEntity(...)`. The id comes from `Guid.NewGuid()` and the two
      timestamps from two separate `DateTime.UtcNow` readings; all three are
      parameters here. The constructor has no failure case. */
  function Create(consumerId: Guid, data: AddressData, id: Guid, createdAt: Instant, updatedAt: Instant): (a: Address)
    ensures a.Data() == data
    ensures a.id == id && a.consumerId == consumerId
    ensures a.createdAt == createdAt && a.updatedAt == updatedAt
  {
    Address(id, consumerId,
            data.streetAddress, data.city, data.state, data.postalCode,
            data.latitude, data.longitude, data.isDefault, data.countryId,
            createdAt, updatedAt)
  }

  /** `AddressEntity.Update(...)` with `now` the clock reading. */
  function Update(a: Address, data: AddressData, now: Instant): (r: Address)
    ensures r.Data() == data
    ensures r.id == a.id && r.consumerId == a.consumerId && r.createdAt == a.createdAt
    ensures r.updatedAt == now
  {
    a.(streetAddress := data.streetAddress, city := data.city, state := data.state,
       postalCode := data.postalCode, latitude := data.latitude, longitude := data.longitude,
       isDefault := data.isDefault, countryId := data.countryId, updatedAt := now)
  }

  /** An address is determined by its id, owner, creation time, data and last
      update time: no field is left out of `Data` and the identity fields. */
  lemma AddressDeterminedByParts(a: Address, b: Address)
    ensures a == b <==>
      && a.id == b.id && a.consumerId == b.consumerId
      && a.createdAt == b.createdAt && a.updatedAt == b.updatedAt
      && a.Data() == b.Data()
  {
  }

  /** Updating twice keeps only the second update: the first leaves no trace. */
  lemma UpdateLastWriteWins(a: Address, d1: AddressData, t1: Instant, d2: AddressData, t2: Instant)
    ensures Update(Update(a, d1, t1), d2, t2) == Update(a, d2, t2)
  {
  }

  /** Updating an address with its own data only moves its update time. */
  lemma UpdateWithOwnData(a: Address, now: Instant)
    ensures Update(a, a.Data(), now) == a.(updatedAt := now)
  {
  }
}
