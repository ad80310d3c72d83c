/** ConsumerRepository: the Consumers table behind IConsumerRepository. */
module ConsumerRepository {
  import opened Wrappers
  import opened Primitives
  import opened ConsumerEntity
  import opened Persistence
  import Tables

  /** `GetByIdAsync(id)`: the stored consumer with that id, or null. */
  function GetById(s: Store, id: Guid): (r: Option<Consumer>)
    ensures r.Some? ==> r.value in s.consumers && r.value.id == id
    ensures r.None? <==> forall i | 0 <= i < |s.consumers| :: s.consumers[i].id != id
  {
    Tables.Find(s.consumers, ConsumerKey, id)
  }

  /** `GetAllAsync()`: every stored consumer, each one the consumer its id
      retrieves. */
  function GetAll(s: Store): (r: seq<Consumer>)
    requires WellFormed(s)
    ensures |r| == |s.consumers|
    ensures forall id | GetById(s, id).Some? :: GetById(s, id).value in r
    ensures forall i | 0 <= i < |r| :: GetById(s, r[i].id) == Some(r[i])
  {
    StoredRowsAreFound(s);
    s.consumers
  }

  /** While no stored consumer has the empty id, looking the empty id up
      finds nothing. */
  lemma EmptyIdNotFound(s: Store)
    requires NoEmptyIds(s)
    ensures GetById(s, EmptyGuid).None?
  {
  }

  lemma StoredRowsAreFound(s: Store)
    requires WellFormed(s)
    ensures forall i | 0 <= i < |s.consumers| :: GetById(s, s.consumers[i].id) == Some(s.consumers[i])
  {
    forall i | 0 <= i < |s.consumers|
      ensures GetById(s, s.consumers[i].id) == Some(s.consumers[i])
    {
      Tables.FindStoredRow(s.consumers, ConsumerKey, i);
    }
  }

  /** `AddAsync(consumer)`. A consumer with a fresh id becomes retrievable;
      every other lookup and the addresses are unaffected. */
  function Add(s: Store, c: Consumer): (r: Store)
    ensures r.addresses == s.addresses
    ensures GetById(s, c.id).None? ==> GetById(r, c.id) == Some(c)
    ensures forall id | id != c.id :: GetById(r, id) == GetById(s, id)
    ensures WellFormed(s) && GetById(s, c.id).None? ==> WellFormed(r)
    ensures OwnersExist(s) ==> OwnersExist(r)
    ensures NoEmptyIds(s) && c.id != EmptyGuid ==> NoEmptyIds(r)
  {
    var r := s.(consumers := Tables.Insert(s.consumers, c));
    assert GetById(s, c.id).None? ==> GetById(r, c.id) == Some(c) by {
      Tables.FindAfterInsert(s.consumers, ConsumerKey, c, c.id);
    }
    assert forall id | id != c.id :: GetById(r, id) == GetById(s, id) by {
      forall id | id != c.id
        ensures GetById(r, id) == GetById(s, id)
      {
        Tables.FindAfterInsert(s.consumers, ConsumerKey, c, id);
      }
    }
    assert WellFormed(s) && GetById(s, c.id).None? ==> WellFormed(r) by {
      if WellFormed(s) && GetById(s, c.id).None? {
        Tables.InsertKeepsKeysUnique(s.consumers, ConsumerKey, c);
      }
    }
    r
  }

  /** `UpdateAsync(consumer)`: the stored consumer with the same id is
      replaced; every other lookup and the addresses are unaffected. */
  function Update(s: Store, c: Consumer): (r: Store)
    ensures r.addresses == s.addresses
    ensures GetById(s, c.id).Some? ==> GetById(r, c.id) == Some(c)
    ensures forall id | id != c.id :: GetById(r, id) == GetById(s, id)
    ensures WellFormed(s) ==> WellFormed(r)
    ensures OwnersExist(s) ==> OwnersExist(r)
    ensures NoEmptyIds(s) ==> NoEmptyIds(r)
  {
    var r := s.(consumers := Tables.Replace(s.consumers, ConsumerKey, c));
    assert GetById(s, c.id).Some? ==> GetById(r, c.id) == Some(c) by {
      Tables.FindAfterReplace(s.consumers, ConsumerKey, c, c.id);
    }
    assert forall id | id != c.id :: GetById(r, id) == GetById(s, id) by {
      forall id | id != c.id
        ensures GetById(r, id) == GetById(s, id)
      {
        Tables.FindAfterReplace(s.consumers, ConsumerKey, c, id);
      }
    }
    assert WellFormed(s) ==> WellFormed(r) by {
      if WellFormed(s) {
        Tables.ReplaceKeepsKeysUnique(s.consumers, ConsumerKey, c);
      }
    }
    assert OwnersExist(s) ==> OwnersExist(r) by {
      if OwnersExist(s) {
        forall a | a in r.addresses
          ensures Tables.HasKey(r.consumers, ConsumerKey, a.consumerId)
        {
          var i :| 0 <= i < |s.consumers| && ConsumerKey(s.consumers[i]) == a.consumerId;
          Tables.ReplacedRow(s.consumers, ConsumerKey, c, i);
        }
      }
    }
    assert NoEmptyIds(s) ==> NoEmptyIds(r) by {
      if NoEmptyIds(s) {
        ReplaceKeepsNoEmptyIds(s, c);
      }
    }
    r
  }

  /** A replace only puts the new consumer where one with the same id was,
      so it brings in no empty id. */
  lemma ReplaceKeepsNoEmptyIds(s: Store, c: Consumer)
    requires NoEmptyIds(s)
    ensures NoEmptyIds(s.(consumers := Tables.Replace(s.consumers, ConsumerKey, c)))
  {
    var rows := Tables.Replace(s.consumers, ConsumerKey, c);
    forall x | x in rows
      ensures x.id != EmptyGuid
    {
      var i :| 0 <= i < |rows| && rows[i] == x;
      Tables.ReplacedRow(s.consumers, ConsumerKey, c, i);
      assert s.consumers[i] in s.consumers;
    }
  }

  /** `DeleteAsync(id)`: when a consumer with that id is stored it is removed
      and lookups of other ids are unaffected; otherwise nothing happens and
      nothing is saved. The addresses are not touched here: removing them
      with their owner is left to the database's cascade rule. */
  function Delete(s: Store, id: Guid): (r: Store)
    ensures r.addresses == s.addresses
    ensures GetById(s, id).None? ==> r == s
    ensures GetById(r, id).None?
    ensures forall other | other != id :: GetById(r, other) == GetById(s, other)
    ensures WellFormed(s) ==> WellFormed(r)
    ensures NoEmptyIds(s) ==> NoEmptyIds(r)
  {
    if GetById(s, id).None? then s
    else
      var r := s.(consumers := Tables.Delete(s.consumers, ConsumerKey, id));
      DeleteFacts(s, id, r);
      r
  }

  lemma DeleteFacts(s: Store, id: Guid, r: Store)
    requires r == s.(consumers := Tables.Delete(s.consumers, ConsumerKey, id))
    ensures GetById(r, id).None?
    ensures forall other | other != id :: GetById(r, other) == GetById(s, other)
    ensures WellFormed(s) ==> WellFormed(r)
  {
    forall other {
      Tables.FindAfterDelete(s.consumers, ConsumerKey, id, other);
    }
    if WellFormed(s) {
      Tables.DeleteKeepsKeysUnique(s.consumers, ConsumerKey, id);
    }
  }
}
