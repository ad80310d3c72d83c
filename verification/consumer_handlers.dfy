/** The consumer command handlers. Each takes the store and the request and
    gives back a `Handled`: the store afterwards, the response or the
    exception thrown, and the repository calls made on the way. */
module ConsumerHandlers {
  import opened Wrappers
  import opened Primitives
  import opened Errors
  import opened ConsumerEntity
  import opened Persistence
  import opened Responses
  import ConsumerRepository

  /** CreateConsumerCommandHandler. `annotationsValid` is the verdict of the
      DataAnnotations check on the request (the attributes are declared on
      the command class, which is not part of this model); `newId`,
      `createdAt` and `updatedAt` are the entity constructor's
      `Guid.NewGuid()` and clock readings. */
  function CreateConsumer(s: Store, d: ConsumerData, annotationsValid: bool,
                          newId: Guid, createdAt: Instant, updatedAt: Instant): (r: Handled<ConsumerResponse>)
    requires newId != EmptyGuid && ConsumerRepository.GetById(s, newId).None?
    ensures r.result.Success? <==> annotationsValid && Valid(d)
    ensures !annotationsValid ==> r.result == Failure(ValidationFailed)
    ensures annotationsValid && !Valid(d) ==> Validate(d) == Fail(r.result.error)
    ensures r.result.Failure? ==> r.store == s && r.calls == []
    ensures r.result.Success? ==>
      && r.result.value.id == newId && r.result.value.Data() == d
      && r.result.value.createdAt == createdAt && r.result.value.updatedAt == updatedAt
      && |r.calls| == 1 && r.calls[0].AddConsumer?
      && r.calls[0].consumer.id == newId
      && ConsumerRepository.GetById(r.store, newId) == Some(r.calls[0].consumer)
      && FromConsumer(r.calls[0].consumer) == r.result.value
      && r.store.addresses == s.addresses
      && forall id | id != newId :: ConsumerRepository.GetById(r.store, id) == ConsumerRepository.GetById(s, id)
    ensures WellFormed(s) ==> WellFormed(r.store)
    ensures OwnersExist(s) ==> OwnersExist(r.store)
    ensures NoEmptyIds(s) ==> NoEmptyIds(r.store)
  {
    if !annotationsValid then Handled(s, Failure(ValidationFailed), [])
    else
      match ConsumerEntity.Create(d, newId, createdAt, updatedAt)
      case Failure(e) => Handled(s, Failure(e), [])
      case Success(c) => Handled(ConsumerRepository.Add(s, c), Success(FromConsumer(c)), [AddConsumer(c)])
  }

  /** GetConsumerByIdCommandHandler: the empty id is refused before the
      repository is asked; a missing consumer is ConsumerNotFound. */
  function GetConsumerById(s: Store, id: Guid): (r: Handled<ConsumerResponse>)
    ensures r.store == s
    ensures id == EmptyGuid ==> r.result == Failure(Argument(Id)) && r.calls == []
    ensures id != EmptyGuid ==> r.calls == [GetConsumer(id)]
    ensures id != EmptyGuid && ConsumerRepository.GetById(s, id).None? ==> r.result == Failure(ConsumerNotFound(id))
    ensures r.result.Success? <==> id != EmptyGuid && ConsumerRepository.GetById(s, id).Some?
    ensures r.result.Success? ==> r.result.value == FromConsumer(ConsumerRepository.GetById(s, id).value)
  {
    if id == EmptyGuid then Handled(s, Failure(Argument(Id)), [])
    else
      match ConsumerRepository.GetById(s, id)
      case None => Handled(s, Failure(ConsumerNotFound(id)), [GetConsumer(id)])
      case Some(c) => Handled(s, Success(FromConsumer(c)), [GetConsumer(id)])
  }

  /** The part both UpdateConsumerCommandHandler versions share once the id
      has been looked up: apply `ConsumerEntity.Update` and save on success. */
  function UpdateFound(s: Store, id: Guid, d: ConsumerData, now: Instant): Handled<ConsumerResponse> {
    match ConsumerRepository.GetById(s, id)
    case None => Handled(s, Failure(ConsumerNotFound(id)), [GetConsumer(id)])
    case Some(c) =>
      match ConsumerEntity.Update(c, d, now)
      case Failure(e) => Handled(s, Failure(e), [GetConsumer(id)])
      case Success(u) =>
        Handled(ConsumerRepository.Update(s, u), Success(FromConsumer(u)), [GetConsumer(id), UpdateConsumer(u)])
  }

  /** What an update handler promises once it has asked the repository for
      `id`: not found means nothing else happens; a validation failure
      means the store is untouched and nothing is saved; otherwise exactly one
      save of the updated entity, which keeps its id and creation time. */
  ghost predicate UpdatesAsPromised(s: Store, id: Guid, d: ConsumerData, now: Instant, r: Handled<ConsumerResponse>) {
    && |r.calls| >= 1 && r.calls[0] == GetConsumer(id)
    && (ConsumerRepository.GetById(s, id).None? ==>
          r == Handled(s, Failure(ConsumerNotFound(id)), [GetConsumer(id)]))
    && (ConsumerRepository.GetById(s, id).Some? && !Valid(d) ==>
          && r.store == s && r.calls == [GetConsumer(id)]
          && r.result.Failure? && Validate(d) == Fail(r.result.error))
    && (ConsumerRepository.GetById(s, id).Some? && Valid(d) ==>
          var before := ConsumerRepository.GetById(s, id).value;
          && |r.calls| == 2 && r.calls[1].UpdateConsumer?
          && var u := r.calls[1].consumer;
          && u.id == id && u.Data() == d && u.createdAt == before.createdAt && u.updatedAt == now
          && r.result == Success(FromConsumer(u))
          && ConsumerRepository.GetById(r.store, id) == Some(u)
          && r.store.addresses == s.addresses
          && forall other | other != id :: ConsumerRepository.GetById(r.store, other) == ConsumerRepository.GetById(s, other))
  }

  lemma UpdateFoundAsPromised(s: Store, id: Guid, d: ConsumerData, now: Instant)
    ensures UpdatesAsPromised(s, id, d, now, UpdateFound(s, id, d, now))
    ensures WellFormed(s) ==> WellFormed(UpdateFound(s, id, d, now).store)
    ensures OwnersExist(s) ==> OwnersExist(UpdateFound(s, id, d, now).store)
    ensures NoEmptyIds(s) ==> NoEmptyIds(UpdateFound(s, id, d, now).store)
  {
  }

  /** UpdateConsumerCommandHandler of the MSConsumers project: the empty id is
      refused before the repository is asked. */
  function UpdateGuarded(s: Store, id: Guid, d: ConsumerData, now: Instant): (r: Handled<ConsumerResponse>)
    ensures id == EmptyGuid ==> r == Handled(s, Failure(Argument(Id)), [])
    ensures id != EmptyGuid ==> UpdatesAsPromised(s, id, d, now, r)
    ensures WellFormed(s) ==> WellFormed(r.store)
    ensures OwnersExist(s) ==> OwnersExist(r.store)
    ensures NoEmptyIds(s) ==> NoEmptyIds(r.store)
  {
    if id == EmptyGuid then Handled(s, Failure(Argument(Id)), [])
    else
      UpdateFoundAsPromised(s, id, d, now);
      UpdateFound(s, id, d, now)
  }

  /** UpdateConsumerCommandHandler of the MsConsumers project: no empty-id
      check, so the empty id goes to the repository like any other. */
  function UpdateUnguarded(s: Store, id: Guid, d: ConsumerData, now: Instant): (r: Handled<ConsumerResponse>)
    ensures UpdatesAsPromised(s, id, d, now, r)
    ensures WellFormed(s) ==> WellFormed(r.store)
    ensures OwnersExist(s) ==> OwnersExist(r.store)
    ensures NoEmptyIds(s) ==> NoEmptyIds(r.store)
  {
    UpdateFoundAsPromised(s, id, d, now);
    UpdateFound(s, id, d, now)
  }

  /** DeleteConsumerCommandHandler: look the consumer up, then delete it by
      id. It has no empty-id check. */
  function DeleteConsumer(s: Store, id: Guid): (r: Handled<()>)
    ensures ConsumerRepository.GetById(s, id).None? ==>
      r == Handled(s, Failure(ConsumerNotFound(id)), [GetConsumer(id)])
    ensures ConsumerRepository.GetById(s, id).Some? ==>
      && r.result == Success(()) && r.calls == [GetConsumer(id), Persistence.DeleteConsumer(id)]
      && ConsumerRepository.GetById(r.store, id).None?
      && r.store.addresses == s.addresses
      && forall other | other != id :: ConsumerRepository.GetById(r.store, other) == ConsumerRepository.GetById(s, other)
    ensures WellFormed(s) ==> WellFormed(r.store)
    ensures NoEmptyIds(s) ==> NoEmptyIds(r.store)
  {
    match ConsumerRepository.GetById(s, id)
    case None => Handled(s, Failure(ConsumerNotFound(id)), [GetConsumer(id)])
    case Some(_) => Handled(ConsumerRepository.Delete(s, id), Success(()), [GetConsumer(id), Persistence.DeleteConsumer(id)])
  }

  // -----------------------------------------------------------------------
  // Handlers in sequence
  // -----------------------------------------------------------------------

  /** A created consumer is found by its id, with the response the creation
      gave. */
  lemma CreateThenGet(s: Store, d: ConsumerData, annotationsValid: bool,
                      newId: Guid, createdAt: Instant, updatedAt: Instant)
    requires newId != EmptyGuid && ConsumerRepository.GetById(s, newId).None?
    requires CreateConsumer(s, d, annotationsValid, newId, createdAt, updatedAt).result.Success?
    ensures var created := CreateConsumer(s, d, annotationsValid, newId, createdAt, updatedAt);
      GetConsumerById(created.store, newId).result == created.result
  {
  }

  /** A successful update is what the next lookup sees. */
  lemma UpdateThenGet(s: Store, id: Guid, d: ConsumerData, now: Instant)
    ensures var updated := UpdateGuarded(s, id, d, now);
      updated.result.Success? ==> GetConsumerById(updated.store, id).result == updated.result
  {
  }

  /** After a delete, the consumer is no longer found. */
  lemma DeleteThenGet(s: Store, id: Guid)
    requires id != EmptyGuid && DeleteConsumer(s, id).result.Success?
    ensures GetConsumerById(DeleteConsumer(s, id).store, id).result == Failure(ConsumerNotFound(id))
  {
  }

  /** The two update handlers differ only on the empty id. There the guarded
      one throws ArgumentException without touching the repository, while the
      unguarded one looks the empty id up and, since no stored consumer has
      the empty id (an invariant every handler keeps), reports
      ConsumerNotFound. */
  lemma UpdateVersionsAgree(s: Store, id: Guid, d: ConsumerData, now: Instant)
    ensures id != EmptyGuid ==> UpdateGuarded(s, id, d, now) == UpdateUnguarded(s, id, d, now)
    ensures id == EmptyGuid && NoEmptyIds(s) ==>
      && UpdateGuarded(s, id, d, now).result == Failure(Argument(Id))
      && UpdateGuarded(s, id, d, now).calls == []
      && UpdateUnguarded(s, id, d, now).result == Failure(ConsumerNotFound(EmptyGuid))
      && UpdateUnguarded(s, id, d, now).calls == [GetConsumer(EmptyGuid)]
  {
    if id == EmptyGuid && NoEmptyIds(s) {
      ConsumerRepository.EmptyIdNotFound(s);
    }
  }
}
