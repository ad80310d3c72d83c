/** The address command handlers, in the same shape as the consumer ones:
    store in, `Handled` out. */
module AddressHandlers {
  import opened Wrappers
  import opened Primitives
  import opened Errors
  import opened AddressEntity
  import opened Persistence
  import opened Responses
  import ConsumerRepository
  import AddressRepository

  /** CreateAddressCommandHandler: the owner must exist; the address is then
      built (which cannot fail) and added. `newId`, `createdAt` and
      `updatedAt` are the constructor's `Guid.NewGuid()` and clock readings. */
  function CreateAddress(s: Store, consumerId: Guid, data: AddressData,
                         newId: Guid, createdAt: Instant, updatedAt: Instant): (r: Handled<AddressResponse>)
    requires AddressRepository.GetById(s, newId).None?
    ensures ConsumerRepository.GetById(s, consumerId).None? ==>
      r == Handled(s, Failure(ConsumerNotFound(consumerId)), [GetConsumer(consumerId)])
    ensures ConsumerRepository.GetById(s, consumerId).Some? ==>
      && |r.calls| == 2 && r.calls[0] == GetConsumer(consumerId) && r.calls[1].AddAddress?
      && var a := r.calls[1].address;
      && a.id == newId && a.consumerId == consumerId && a.Data() == data
      && a.createdAt == createdAt && a.updatedAt == updatedAt
      && r.result == Success(FromAddress(a))
      && AddressRepository.GetById(r.store, newId) == Some(a)
      && r.store.consumers == s.consumers
      && forall id | id != newId :: AddressRepository.GetById(r.store, id) == AddressRepository.GetById(s, id)
    ensures WellFormed(s) ==> WellFormed(r.store)
    ensures OwnersExist(s) ==> OwnersExist(r.store)
    ensures NoEmptyIds(s) ==> NoEmptyIds(r.store)
  {
    match ConsumerRepository.GetById(s, consumerId)
    case None => Handled(s, Failure(ConsumerNotFound(consumerId)), [GetConsumer(consumerId)])
    case Some(_) =>
      var a := AddressEntity.Create(consumerId, data, newId, createdAt, updatedAt);
      Handled(AddressRepository.Add(s, a), Success(FromAddress(a)), [GetConsumer(consumerId), AddAddress(a)])
  }

  /** UpdateAddressCommandHandler: a missing address is AddressNotFound;
      otherwise the eight fields are overwritten and the entity saved. */
  function UpdateAddress(s: Store, id: Guid, data: AddressData, now: Instant): (r: Handled<AddressResponse>)
    ensures AddressRepository.GetById(s, id).None? ==>
      r == Handled(s, Failure(AddressNotFound(id)), [GetAddress(id)])
    ensures AddressRepository.GetById(s, id).Some? ==>
      var before := AddressRepository.GetById(s, id).value;
      && |r.calls| == 2 && r.calls[0] == GetAddress(id) && r.calls[1].UpdateAddress?
      && var a := r.calls[1].address;
      && a.id == id && a.consumerId == before.consumerId && a.Data() == data
      && a.createdAt == before.createdAt && a.updatedAt == now
      && r.result == Success(FromAddress(a))
      && AddressRepository.GetById(r.store, id) == Some(a)
      && r.store.consumers == s.consumers
      && forall other | other != id :: AddressRepository.GetById(r.store, other) == AddressRepository.GetById(s, other)
    ensures WellFormed(s) ==> WellFormed(r.store)
    ensures OwnersExist(s) ==> OwnersExist(r.store)
    ensures NoEmptyIds(s) ==> NoEmptyIds(r.store)
  {
    match AddressRepository.GetById(s, id)
    case None => Handled(s, Failure(AddressNotFound(id)), [GetAddress(id)])
    case Some(before) =>
      var a := AddressEntity.Update(before, data, now);
      Handled(AddressRepository.Update(s, a), Success(FromAddress(a)), [GetAddress(id), Persistence.UpdateAddress(a)])
  }

  /** GetAddressesByConsumerIdCommandHandler: one response per address the
      repository lists for the consumer, in the same order; when there are
      none it throws
      AddressNotFound carrying the empty id, not the consumer's. */
  function GetAddressesByConsumerId(s: Store, consumerId: Guid): (r: Handled<seq<AddressResponse>>)
    ensures r.store == s && r.calls == [ListAddresses(consumerId)]
    ensures r.result.Failure? <==> forall a | a in s.addresses :: a.consumerId != consumerId
    ensures r.result.Failure? ==> r.result.error == AddressNotFound(EmptyGuid)
    ensures r.result.Success? ==>
      && |r.result.value| > 0
      && (forall i | 0 <= i < |r.result.value| :: r.result.value[i].consumerId == consumerId)
      && (forall i | 0 <= i < |r.result.value| :: exists a | a in s.addresses :: r.result.value[i] == FromAddress(a))
      && (forall a | a in s.addresses && a.consumerId == consumerId :: FromAddress(a) in r.result.value)
    ensures r.result.Success? ==>
      var owned := AddressRepository.GetByConsumerId(s, consumerId);
      && |r.result.value| == |owned|
      && forall i | 0 <= i < |owned| :: r.result.value[i] == FromAddress(owned[i])
  {
    var owned := AddressRepository.GetByConsumerId(s, consumerId);
    if |owned| == 0 then
      Handled(s, Failure(AddressNotFound(EmptyGuid)), [ListAddresses(consumerId)])
    else
      var r := FromAddresses(owned);
      assert forall i | 0 <= i < |r| :: owned[i] in s.addresses && r[i] == FromAddress(owned[i]);
      FromAddressesCovers(owned);
      assert owned[0] in s.addresses && owned[0].consumerId == consumerId;
      Handled(s, Success(r), [ListAddresses(consumerId)])
  }

  /** GetAddressByIdCommandHandler: the address as a response, or
      AddressNotFound. */
  function GetAddressById(s: Store, id: Guid): (r: Handled<AddressResponse>)
    ensures r.store == s && r.calls == [GetAddress(id)]
    ensures r.result.Success? <==> AddressRepository.GetById(s, id).Some?
    ensures r.result.Success? ==> r.result.value == FromAddress(AddressRepository.GetById(s, id).value)
    ensures r.result.Failure? ==> r.result.error == AddressNotFound(id)
  {
    match AddressRepository.GetById(s, id)
    case None => Handled(s, Failure(AddressNotFound(id)), [GetAddress(id)])
    case Some(a) => Handled(s, Success(FromAddress(a)), [GetAddress(id)])
  }

  /** DeleteAddressCommandHandler: look the address up, then delete that
      entity. */
  function DeleteAddress(s: Store, id: Guid): (r: Handled<()>)
    ensures AddressRepository.GetById(s, id).None? ==>
      r == Handled(s, Failure(AddressNotFound(id)), [GetAddress(id)])
    ensures AddressRepository.GetById(s, id).Some? ==>
      && r.result == Success(())
      && r.calls == [GetAddress(id), Persistence.DeleteAddress(AddressRepository.GetById(s, id).value)]
      && AddressRepository.GetById(r.store, id).None?
      && r.store.consumers == s.consumers
      && forall other | other != id :: AddressRepository.GetById(r.store, other) == AddressRepository.GetById(s, other)
    ensures WellFormed(s) ==> WellFormed(r.store)
    ensures OwnersExist(s) ==> OwnersExist(r.store)
    ensures NoEmptyIds(s) ==> NoEmptyIds(r.store)
  {
    match AddressRepository.GetById(s, id)
    case None => Handled(s, Failure(AddressNotFound(id)), [GetAddress(id)])
    case Some(a) => Handled(AddressRepository.Delete(s, a), Success(()), [GetAddress(id), Persistence.DeleteAddress(a)])
  }

  // -----------------------------------------------------------------------
  // Handlers in sequence
  // -----------------------------------------------------------------------

  /** A created address is found by its id with the response the creation
      gave, and is listed among its owner's addresses. */
  lemma CreateThenGet(s: Store, consumerId: Guid, data: AddressData,
                      newId: Guid, createdAt: Instant, updatedAt: Instant)
    requires AddressRepository.GetById(s, newId).None?
    ensures var created := CreateAddress(s, consumerId, data, newId, createdAt, updatedAt);
      created.result.Success? ==>
        && GetAddressById(created.store, newId).result == created.result
        && GetAddressesByConsumerId(created.store, consumerId).result.Success?
        && created.result.value in GetAddressesByConsumerId(created.store, consumerId).result.value
  {
    var created := CreateAddress(s, consumerId, data, newId, createdAt, updatedAt);
    if created.result.Success? {
      var a := created.calls[1].address;
      assert a in created.store.addresses;
    }
  }

  /** A successful update is what the next lookup sees. */
  lemma UpdateThenGet(s: Store, id: Guid, data: AddressData, now: Instant)
    ensures var updated := UpdateAddress(s, id, data, now);
      updated.result.Success? ==> GetAddressById(updated.store, id).result == updated.result
  {
  }

  /** After a delete, the address is no longer found. */
  lemma DeleteThenGet(s: Store, id: Guid)
    requires DeleteAddress(s, id).result.Success?
    ensures GetAddressById(DeleteAddress(s, id).store, id).result == Failure(AddressNotFound(id))
  {
  }
}
