/** AddressRepository: the Addresses table behind IAddressRepository. */
module AddressRepository {
  import opened Wrappers
  import opened Primitives
  import opened AddressEntity
  import opened Persistence
  import Tables

  /** The filter `a => a.ConsumerId == consumerId`. */
  function OwnedBy(consumerId: Guid): Address -> bool {
    (a: Address) => a.consumerId == consumerId
  }

  /** The filter `a => a.ConsumerId == consumerId && a.IsDefault`. */
  function MainOf(consumerId: Guid): Address -> bool {
    (a: Address) => a.consumerId == consumerId && a.isDefault
  }

  /** `GetByIdAsync(id)`: the stored address with that id, or null. */
  function GetById(s: Store, id: Guid): (r: Option<Address>)
    ensures r.Some? ==> r.value in s.addresses && r.value.id == id
    ensures r.None? <==> forall i | 0 <= i < |s.addresses| :: s.addresses[i].id != id
  {
    Tables.Find(s.addresses, AddressKey, id)
  }

  /** `GetByConsumerIdAsync(consumerId)`: the addresses owned by that
      consumer, in table order, each retrievable by its own id. */
  function GetByConsumerId(s: Store, consumerId: Guid): (r: seq<Address>)
    ensures forall i | 0 <= i < |r| :: r[i].consumerId == consumerId && r[i] in s.addresses
    ensures forall a | a in s.addresses && a.consumerId == consumerId :: a in r
    ensures WellFormed(s) ==> Tables.KeysUnique(r, AddressKey)
    ensures WellFormed(s) ==> forall i | 0 <= i < |r| :: GetById(s, r[i].id) == Some(r[i])
  {
    var r := Tables.Where(s.addresses, OwnedBy(consumerId));
    if WellFormed(s) then
      Tables.WhereKeepsKeysUnique(s.addresses, AddressKey, OwnedBy(consumerId));
      StoredRowsAreFound(s);
      r
    else
      r
  }

  /** Each stored address of the consumer is listed as often as it is stored,
      and no other address is listed. */
  lemma GetByConsumerIdCount(s: Store, consumerId: Guid, a: Address)
    ensures multiset(GetByConsumerId(s, consumerId))[a] ==
      if a.consumerId == consumerId then multiset(s.addresses)[a] else 0
  {
    Tables.WhereCount(s.addresses, OwnedBy(consumerId), a);
  }

  /** The list keeps table order: an address added for the consumer is listed
      after the ones it already had, and adding another consumer's address
      leaves the list as it was. */
  lemma GetByConsumerIdAfterAdd(s: Store, a: Address, consumerId: Guid)
    ensures GetByConsumerId(Add(s, a), consumerId) ==
      GetByConsumerId(s, consumerId) + (if a.consumerId == consumerId then [a] else [])
  {
    Tables.WhereAppend(s.addresses, [a], OwnedBy(consumerId));
    assert Tables.Where([a], OwnedBy(consumerId)) == if a.consumerId == consumerId then [a] else [];
  }

  /** `GetMainAddressByConsumerIdAsync(consumerId)`: the first of the
      consumer's addresses marked default, or null when none is. */
  function GetMainAddressByConsumerId(s: Store, consumerId: Guid): (r: Option<Address>)
    ensures r.Some? ==> r.value in s.addresses && r.value.consumerId == consumerId && r.value.isDefault
    ensures r.None? <==> forall a | a in s.addresses :: !(a.consumerId == consumerId && a.isDefault)
  {
    var r := Tables.FirstWhere(s.addresses, MainOf(consumerId));
    assert r.None? ==> forall a | a in s.addresses :: !MainOf(consumerId)(a);
    r
  }

  /** When a consumer has exactly one default address, that is the main one,
      and it is among the addresses the consumer owns. */
  lemma MainAddressIsTheDefault(s: Store, consumerId: Guid, a: Address)
    requires a in s.addresses && a.consumerId == consumerId && a.isDefault
    requires forall b | b in s.addresses && b.consumerId == consumerId && b.isDefault :: b == a
    ensures GetMainAddressByConsumerId(s, consumerId) == Some(a)
    ensures a in GetByConsumerId(s, consumerId)
  {
  }

  lemma StoredRowsAreFound(s: Store)
    requires WellFormed(s)
    ensures forall a | a in s.addresses :: GetById(s, a.id) == Some(a)
  {
    forall a | a in s.addresses
      ensures GetById(s, a.id) == Some(a)
    {
      var i :| 0 <= i < |s.addresses| && s.addresses[i] == a;
      Tables.FindStoredRow(s.addresses, AddressKey, i);
    }
  }

  /** `AddAsync(address)`. An address with a fresh id becomes retrievable;
      every other lookup and the consumers are unaffected. */
  function Add(s: Store, a: Address): (r: Store)
    ensures r.consumers == s.consumers
    ensures GetById(s, a.id).None? ==> GetById(r, a.id) == Some(a)
    ensures forall id | id != a.id :: GetById(r, id) == GetById(s, id)
    ensures WellFormed(s) && GetById(s, a.id).None? ==> WellFormed(r)
    ensures OwnersExist(s) && Tables.HasKey(s.consumers, ConsumerKey, a.consumerId) ==> OwnersExist(r)
  {
    var r := s.(addresses := Tables.Insert(s.addresses, a));
    assert GetById(s, a.id).None? ==> GetById(r, a.id) == Some(a) by {
      Tables.FindAfterInsert(s.addresses, AddressKey, a, a.id);
    }
    assert forall id | id != a.id :: GetById(r, id) == GetById(s, id) by {
      forall id | id != a.id
        ensures GetById(r, id) == GetById(s, id)
      {
        Tables.FindAfterInsert(s.addresses, AddressKey, a, id);
      }
    }
    assert WellFormed(s) && GetById(s, a.id).None? ==> WellFormed(r) by {
      if WellFormed(s) && GetById(s, a.id).None? {
        Tables.InsertKeepsKeysUnique(s.addresses, AddressKey, a);
      }
    }
    r
  }

  /** `UpdateAsync(address)`: the stored address with the same id is
      replaced; every other lookup and the consumers are unaffected. */
  function Update(s: Store, a: Address): (r: Store)
    ensures r.consumers == s.consumers
    ensures GetById(s, a.id).Some? ==> GetById(r, a.id) == Some(a)
    ensures forall id | id != a.id :: GetById(r, id) == GetById(s, id)
    ensures WellFormed(s) ==> WellFormed(r)
    ensures OwnersExist(s) && Tables.HasKey(s.consumers, ConsumerKey, a.consumerId) ==> OwnersExist(r)
  {
    var r := s.(addresses := Tables.Replace(s.addresses, AddressKey, a));
    UpdateFacts(s, a, r);
    r
  }

  /** The lookups and the key constraint after a replace; the function above
      only adds that the consumers are untouched. */
  lemma UpdateFacts(s: Store, a: Address, r: Store)
    requires r == s.(addresses := Tables.Replace(s.addresses, AddressKey, a))
    ensures GetById(s, a.id).Some? ==> GetById(r, a.id) == Some(a)
    ensures forall id | id != a.id :: GetById(r, id) == GetById(s, id)
    ensures WellFormed(s) ==> WellFormed(r)
  {
    if GetById(s, a.id).Some? {
      Tables.FindAfterReplace(s.addresses, AddressKey, a, a.id);
    }
    forall id | id != a.id
      ensures GetById(r, id) == GetById(s, id)
    {
      Tables.FindAfterReplace(s.addresses, AddressKey, a, id);
    }
    if WellFormed(s) {
      Tables.ReplaceKeepsKeysUnique(s.addresses, AddressKey, a);
    }
  }

  /** `DeleteAsync(address)`: the stored address with that entity's id is
      removed; every other lookup and the consumers are unaffected. */
  function Delete(s: Store, a: Address): (r: Store)
    ensures r.consumers == s.consumers
    ensures GetById(r, a.id).None?
    ensures forall id | id != a.id :: GetById(r, id) == GetById(s, id)
    ensures WellFormed(s) ==> WellFormed(r)
    ensures OwnersExist(s) ==> OwnersExist(r)
  {
    var r := s.(addresses := Tables.Delete(s.addresses, AddressKey, a.id));
    DeleteFacts(s, a, r);
    r
  }

  lemma DeleteFacts(s: Store, a: Address, r: Store)
    requires r == s.(addresses := Tables.Delete(s.addresses, AddressKey, a.id))
    ensures GetById(r, a.id).None?
    ensures forall id | id != a.id :: GetById(r, id) == GetById(s, id)
    ensures WellFormed(s) ==> WellFormed(r)
  {
    forall id {
      Tables.FindAfterDelete(s.addresses, AddressKey, a.id, id);
    }
    if WellFormed(s) {
      Tables.DeleteKeepsKeysUnique(s.addresses, AddressKey, a.id);
    }
  }
}
