/** The state the repositories work on, the calls a handler makes on them,
    and what a handler hands back. */
module Persistence {
  import opened Wrappers
  import opened Primitives
  import opened Errors
  import opened ConsumerEntity
  import opened AddressEntity
  import Tables

  function ConsumerKey(c: Consumer): Guid { c.id }

  function AddressKey(a: Address): Guid { a.id }

  /** The Consumers and Addresses tables. */
  datatype Store = Store(consumers: seq<Consumer>, addresses: seq<Address>)

  /** Both tables respect their primary key. */
  predicate WellFormed(s: Store) {
    Tables.KeysUnique(s.consumers, ConsumerKey) && Tables.KeysUnique(s.addresses, AddressKey)
  }

  /** Every stored address belongs to a stored consumer: the ConsumerId
      foreign key of the Addresses table. */
  predicate OwnersExist(s: Store) {
    forall a | a in s.addresses :: Tables.HasKey(s.consumers, ConsumerKey, a.consumerId)
  }

  /** No stored consumer has the empty id: consumers get their ids from
      `Guid.NewGuid()`, and every handler that stores a consumer keeps it so. */
  predicate NoEmptyIds(s: Store) {
    forall c | c in s.consumers :: c.id != EmptyGuid
  }

  /** A call on IConsumerRepository or IAddressRepository, with its argument. */
  datatype Call =
    | GetConsumer(id: Guid)
    | AddConsumer(consumer: Consumer)
    | UpdateConsumer(consumer: Consumer)
    | DeleteConsumer(id: Guid)
    | GetAddress(id: Guid)
    | ListAddresses(consumerId: Guid)
    | AddAddress(address: Address)
    | UpdateAddress(address: Address)
    | DeleteAddress(address: Address)

  /** What a handler leaves behind: the store after it, its response or the
      exception it throws, and the repository calls it made, in order. */
  datatype Handled<R> = Handled(store: Store, result: Result<R, Error>, calls: seq<Call>)
}
