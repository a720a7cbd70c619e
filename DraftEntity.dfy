/**
 * The entity registry, seen from the conversion: `create` stores an entity
 * under a key drawn from a counter and returns that key.
 */
module DraftEntity {
  import opened RawDraft

  /** What one call of `create` stored. */
  datatype Registration = Registration(entityType: string, mutability: string, data: EntityData)

  class EntityRegistry {
    /** Every entity created so far, by key. */
    var instances: map<EntityKey, Registration>
    /** The last key issued. */
    var instanceKey: nat

    /** Keys are issued in sequence 1, 2, ...: every stored key has already been issued. */
    ghost predicate Valid()
      reads this
    {
      forall k :: k in instances ==> 0 < k <= instanceKey
    }

    constructor ()
      ensures Valid()
      ensures instances == map[] && instanceKey == 0
    {
      instances := map[];
      instanceKey := 0;
    }

    /** Registers an entity under a fresh key and returns that key. */
    method Create(entityType: string, mutability: string, data: EntityData) returns (key: EntityKey)
      requires Valid()
      modifies this
      ensures Valid()
      ensures key == old(instanceKey) + 1 && instanceKey == key
      ensures key !in old(instances)
      ensures instances == old(instances)[key := Registration(entityType, mutability, data)]
    {
      instanceKey := instanceKey + 1;
      key := instanceKey;
      instances := instances[key := Registration(entityType, mutability, data)];
    }
  }
}
