/**
 * convertFromRawToDraftState: registers every entity of a raw content state
 * with the entity registry, then turns each raw block, in order, into a
 * content block whose entity ranges point at the registry's keys.
 */
module ConvertFromRaw {
  import opened Wrappers
  import opened RawDraft
  import DraftEntity
  import BlockKeys

  // ---------------------------------------------------------------------
  // Entity remap pass
  // ---------------------------------------------------------------------

  /** `data || {}`: an entity whose data is absent is registered with the empty map. */
  function DataOrEmpty(e: RawEntity): (d: EntityData)
    ensures e.data.Some? ==> d == e.data.value
    ensures e.data.None? ==> d == map[]
  {
    e.data.GetOr(map[])
  }

  /**
   * `remap` sends its storage keys one-to-one onto exactly the registry keys
   * issued while the counter went from `lo` to `hi`.
   */
  ghost predicate FreshBijection(remap: map<string, EntityKey>, lo: nat, hi: nat) {
    && (forall s :: s in remap ==> lo < remap[s] <= hi)
    && (forall k: EntityKey :: lo < k <= hi ==> k in remap.Values)
    && (forall s1, s2 :: s1 in remap && s2 in remap && s1 != s2 ==> remap[s1] != remap[s2])
  }

  /** What `DraftEntity.create` stores for a raw entity. */
  function RegistrationOf(e: RawEntity): (r: DraftEntity.Registration)
    ensures r.entityType == e.entityType && r.mutability == e.mutability && r.data == DataOrEmpty(e)
  {
    DraftEntity.Registration(e.entityType, e.mutability, DataOrEmpty(e))
  }

  ghost predicate Distinct(order: seq<string>) {
    forall i, j :: 0 <= i < j < |order| ==> order[i] != order[j]
  }

  /**
   * The table built by registering the storage keys of `order` one after
   * another while the counter starts at `lo`.
   */
  ghost function RemapOf(order: seq<string>, lo: nat): map<string, EntityKey>
    decreases |order|
  {
    if order == [] then map[]
    else RemapOf(order[..|order| - 1], lo)[order[|order| - 1] := lo + |order|]
  }

  /** The registry's instances after those same registrations, starting from `base`. */
  ghost function RegistryAfter(
    base: map<EntityKey, DraftEntity.Registration>, entityMap: map<string, RawEntity>,
    order: seq<string>, lo: nat): map<EntityKey, DraftEntity.Registration>
    requires forall i :: 0 <= i < |order| ==> order[i] in entityMap
    decreases |order|
  {
    if order == [] then base
    else RegistryAfter(base, entityMap, order[..|order| - 1], lo)[lo + |order| := RegistrationOf(entityMap[order[|order| - 1]])]
  }

  /** The table has exactly the registered storage keys. */
  lemma {:induction false} RemapOfKeys(order: seq<string>, lo: nat)
    ensures forall s :: s in RemapOf(order, lo) <==> s in order
    decreases |order|
  {
    if order != [] {
      var init := order[..|order| - 1];
      RemapOfKeys(init, lo);
      assert order == init + [order[|order| - 1]];
    }
  }

  /** With no key registered twice, the table has one entry per registration. */
  lemma {:induction false} RemapOfSize(order: seq<string>, lo: nat)
    requires Distinct(order)
    ensures |RemapOf(order, lo)| == |order|
    decreases |order|
  {
    if order != [] {
      var init := order[..|order| - 1];
      RemapOfSize(init, lo);
      RemapOfKeys(init, lo);
      assert order[|order| - 1] !in RemapOf(init, lo);
    }
  }

  /** With no key registered twice, the i-th registered key maps to the (i+1)-th fresh key. */
  lemma {:induction false} RemapOfAt(order: seq<string>, lo: nat, i: nat)
    requires Distinct(order)
    requires i < |order|
    ensures order[i] in RemapOf(order, lo) && RemapOf(order, lo)[order[i]] == lo + i + 1
    decreases |order|
  {
    RemapOfKeys(order, lo);
    if i < |order| - 1 {
      var init := order[..|order| - 1];
      RemapOfAt(init, lo, i);
    }
  }

  /** Registering distinct keys one by one gives a bijection onto the keys issued meanwhile. */
  lemma RemapOfIsFreshBijection(order: seq<string>, lo: nat)
    requires Distinct(order)
    ensures FreshBijection(RemapOf(order, lo), lo, lo + |order|)
  {
    var remap := RemapOf(order, lo);
    RemapOfKeys(order, lo);
    forall s | s in remap
      ensures lo < remap[s] <= lo + |order|
    {
      var i :| 0 <= i < |order| && order[i] == s;
      RemapOfAt(order, lo, i);
    }
    forall k: EntityKey | lo < k <= lo + |order|
      ensures k in remap.Values
    {
      RemapOfAt(order, lo, k - lo - 1);
    }
    forall s1, s2 | s1 in remap && s2 in remap && s1 != s2
      ensures remap[s1] != remap[s2]
    {
      var i :| 0 <= i < |order| && order[i] == s1;
      var j :| 0 <= j < |order| && order[j] == s2;
      RemapOfAt(order, lo, i);
      RemapOfAt(order, lo, j);
    }
  }

  /**
   * After the registrations, key `k` issued after `lo` holds the entity of the
   * (k - lo)-th registered storage key, and every instance present before,
   * under a key not above `lo`, is unchanged.
   */
  lemma {:induction false} RegistryAfterAt(
    base: map<EntityKey, DraftEntity.Registration>, entityMap: map<string, RawEntity>,
    order: seq<string>, lo: nat)
    requires forall i :: 0 <= i < |order| ==> order[i] in entityMap
    ensures forall k: EntityKey :: lo < k <= lo + |order| ==>
      k in RegistryAfter(base, entityMap, order, lo) &&
      RegistryAfter(base, entityMap, order, lo)[k] == RegistrationOf(entityMap[order[k - lo - 1]])
    ensures forall k :: k in base && k <= lo ==>
      k in RegistryAfter(base, entityMap, order, lo) && RegistryAfter(base, entityMap, order, lo)[k] == base[k]
    decreases |order|
  {
    if order != [] {
      var init := order[..|order| - 1];
      RegistryAfterAt(base, entityMap, init, lo);
    }
  }

  /** The registrations add exactly the keys issued after `lo`, and no other key. */
  lemma {:induction false} RegistryAfterKeys(
    base: map<EntityKey, DraftEntity.Registration>, entityMap: map<string, RawEntity>,
    order: seq<string>, lo: nat)
    requires forall i :: 0 <= i < |order| ==> order[i] in entityMap
    ensures forall k :: k in RegistryAfter(base, entityMap, order, lo) <==> k in base || lo < k <= lo + |order|
    decreases |order|
  {
    if order != [] {
      RegistryAfterKeys(base, entityMap, order[..|order| - 1], lo);
    }
  }

  /** Entity `e` was registered under `key` with its own type, mutability and data. */
  ghost predicate RegisteredAs(instances: map<EntityKey, DraftEntity.Registration>, key: EntityKey, e: RawEntity) {
    key in instances && instances[key] == RegistrationOf(e)
  }

  /** Each registered storage key's table entry names the registration of its own entity. */
  lemma RemapOfRegistered(
    base: map<EntityKey, DraftEntity.Registration>, entityMap: map<string, RawEntity>,
    order: seq<string>, lo: nat)
    requires Distinct(order)
    requires forall i :: 0 <= i < |order| ==> order[i] in entityMap
    ensures forall i :: 0 <= i < |order| ==>
      order[i] in RemapOf(order, lo) &&
      RegisteredAs(RegistryAfter(base, entityMap, order, lo), RemapOf(order, lo)[order[i]], entityMap[order[i]])
  {
    RegistryAfterAt(base, entityMap, order, lo);
    forall i | 0 <= i < |order|
      ensures order[i] in RemapOf(order, lo)
      ensures RegisteredAs(RegistryAfter(base, entityMap, order, lo), RemapOf(order, lo)[order[i]], entityMap[order[i]])
    {
      RemapOfAt(order, lo, i);
      var k := lo + i + 1;
      assert order[k - lo - 1] == order[i];
    }
  }

  /**
   * The registrations add to `base` exactly the keys the table hands out:
   * the registry gains nothing beyond one entry per registered storage key.
   */
  lemma RegistryAfterKeysAreTableValues(
    base: map<EntityKey, DraftEntity.Registration>, entityMap: map<string, RawEntity>,
    order: seq<string>, lo: nat)
    requires Distinct(order)
    requires forall i :: 0 <= i < |order| ==> order[i] in entityMap
    ensures RegistryAfter(base, entityMap, order, lo).Keys == base.Keys + RemapOf(order, lo).Values
  {
    RegistryAfterKeys(base, entityMap, order, lo);
    RemapOfIsFreshBijection(order, lo);
  }

  /**
   * Once every key of `entityMap` has been registered, once each, the table
   * covers `entityMap`, is a bijection onto the fresh keys, and each entity
   * sits under its own key with its own attributes.
   */
  lemma RemapComplete(
    base: map<EntityKey, DraftEntity.Registration>, entityMap: map<string, RawEntity>,
    order: seq<string>, lo: nat)
    requires Distinct(order)
    requires forall s :: s in order <==> s in entityMap
    requires forall k :: k in base ==> k <= lo
    ensures RemapOf(order, lo).Keys == entityMap.Keys
    ensures |order| == |entityMap|
    ensures FreshBijection(RemapOf(order, lo), lo, lo + |order|)
    ensures forall s :: s in entityMap ==>
      RegisteredAs(RegistryAfter(base, entityMap, order, lo), RemapOf(order, lo)[s], entityMap[s])
    ensures forall k :: k in base ==>
      k in RegistryAfter(base, entityMap, order, lo) && RegistryAfter(base, entityMap, order, lo)[k] == base[k]
    ensures RegistryAfter(base, entityMap, order, lo).Keys == base.Keys + RemapOf(order, lo).Values
  {
    RemapOfKeys(order, lo);
    RemapOfSize(order, lo);
    assert RemapOf(order, lo).Keys == entityMap.Keys;
    assert |RemapOf(order, lo)| == |RemapOf(order, lo).Keys|;
    RemapOfIsFreshBijection(order, lo);
    RegistryAfterAt(base, entityMap, order, lo);
    RemapOfRegistered(base, entityMap, order, lo);
    RegistryAfterKeysAreTableValues(base, entityMap, order, lo);
    forall s | s in entityMap
      ensures RegisteredAs(RegistryAfter(base, entityMap, order, lo), RemapOf(order, lo)[s], entityMap[s])
    {
      var i :| 0 <= i < |order| && order[i] == s;
    }
  }

  /**
   * `Object.keys(entityMap)`: every key of the map, each once, in an order the
   * model leaves open.
   */
  method ObjectKeys(entityMap: map<string, RawEntity>) returns (keys: seq<string>)
    ensures Distinct(keys)
    ensures forall s :: s in keys <==> s in entityMap
  {
    keys := [];
    var remaining := entityMap.Keys;
    while remaining != {}
      invariant remaining <= entityMap.Keys
      invariant forall s :: s in keys <==> s in entityMap && s !in remaining
      invariant Distinct(keys)
      decreases remaining
    {
      var s :| s in remaining;
      keys := keys + [s];
      remaining := remaining - {s};
    }
  }

  /**
   * The first pass: one registry call per key of `entityMap`, recording the
   * storage-to-local mapping.
   */
  method RemapEntities(entityMap: map<string, RawEntity>, registry: DraftEntity.EntityRegistry)
    returns (fromStorageToLocal: map<string, EntityKey>)
    requires registry.Valid()
    modifies registry
    ensures registry.Valid()
    ensures fromStorageToLocal.Keys == entityMap.Keys
    ensures registry.instanceKey == old(registry.instanceKey) + |entityMap|
    ensures FreshBijection(fromStorageToLocal, old(registry.instanceKey), registry.instanceKey)
    ensures forall s :: s in entityMap ==> RegisteredAs(registry.instances, fromStorageToLocal[s], entityMap[s])
    ensures forall k :: k in old(registry.instances) ==> k in registry.instances && registry.instances[k] == old(registry.instances)[k]
    ensures registry.instances.Keys == old(registry.instances).Keys + fromStorageToLocal.Values
  {
    ghost var lo, base := registry.instanceKey, registry.instances;
    var keys := ObjectKeys(entityMap);
    fromStorageToLocal := map[];
    for i := 0 to |keys|
      invariant registry.Valid()
      invariant registry.instanceKey == lo + i
      invariant fromStorageToLocal == RemapOf(keys[..i], lo)
      invariant registry.instances == RegistryAfter(base, entityMap, keys[..i], lo)
    {
      var storageKey := keys[i];
      var encodedEntity := entityMap[storageKey];
      var newKey := registry.Create(encodedEntity.entityType, encodedEntity.mutability, DataOrEmpty(encodedEntity));
      fromStorageToLocal := fromStorageToLocal[storageKey := newKey];
      assert keys[..i + 1][..i] == keys[..i];
    }
    assert keys[..|keys|] == keys;
    RemapComplete(base, entityMap, keys, lo);
  }

  // ---------------------------------------------------------------------
  // Block assembly pass
  // ---------------------------------------------------------------------

  /**
   * JavaScript truthiness of a block's `key` in `key || generateBlockKey()`:
   * the only falsy values a key can take are an absent key and the empty string.
   */
  predicate HasUsableKey(b: RawBlock): (usable: bool)
    ensures !usable <==> b.key == None || b.key == Some("")
  {
    b.key.Some? && b.key.value != ""
  }

  /** A block with every optional field filled in. */
  datatype NormalBlock = NormalBlock(
    key: string,
    blockType: string,
    text: string,
    depth: int,
    inlineStyleRanges: seq<InlineStyleRange>,
    entityRanges: seq<EntityRange<string>>)

  /**
   * The defaulting `key || generateBlockKey()`, `depth || 0` and `... || []`:
   * a usable key is kept, otherwise `generatedKey` is used; an absent depth
   * is 0; absent range lists are empty.
   */
  function Normalize(b: RawBlock, generatedKey: string): (n: NormalBlock)
    ensures HasUsableKey(b) ==> n.key == b.key.value
    ensures !HasUsableKey(b) ==> n.key == generatedKey
    ensures n.blockType == b.blockType && n.text == b.text
    ensures b.depth.Some? ==> n.depth == b.depth.value
    ensures b.depth.None? ==> n.depth == 0
    ensures b.inlineStyleRanges.Some? ==> n.inlineStyleRanges == b.inlineStyleRanges.value
    ensures b.inlineStyleRanges.None? ==> n.inlineStyleRanges == []
    ensures b.entityRanges.Some? ==> n.entityRanges == b.entityRanges.value
    ensures b.entityRanges.None? ==> n.entityRanges == []
  {
    NormalBlock(
      if HasUsableKey(b) then b.key.value else generatedKey,
      b.blockType,
      b.text,
      b.depth.GetOr(0),
      b.inlineStyleRanges.GetOr([]),
      b.entityRanges.GetOr([]))
  }

  /** A fully specified raw block: every optional field supplied. */
  function Denormalize(n: NormalBlock): (b: RawBlock)
    ensures b.key.Some? && b.depth.Some? && b.inlineStyleRanges.Some? && b.entityRanges.Some?
  {
    RawBlock(Some(n.key), n.blockType, n.text, Some(n.depth), Some(n.inlineStyleRanges), Some(n.entityRanges))
  }

  /**
   * Defaulting leaves a fully specified block as it is, whatever key the
   * generator would have offered.
   */
  lemma NormalizeDenormalize(n: NormalBlock, generatedKey: string)
    requires n.key != ""
    ensures Normalize(Denormalize(n), generatedKey) == n
  {
  }

  /** Defaulting twice is defaulting once: the normalised block needs no new key. */
  lemma NormalizeIdempotent(b: RawBlock, generatedKey: string, otherKey: string)
    requires generatedKey != ""
    ensures Normalize(Denormalize(Normalize(b, generatedKey)), otherKey) == Normalize(b, generatedKey)
  {
  }

  /** `{...range, key: fromStorageToLocal[range.key]}`. */
  function RewriteKey(r: EntityRange<string>, remap: map<string, EntityKey>): (r': EntityRange<EntityKey>)
    requires r.key in remap
    ensures r'.offset == r.offset && r'.length == r.length && r'.key == remap[r.key]
  {
    EntityRange(r.offset, r.length, remap[r.key])
  }

  /**
   * `entityRanges.filter(hasOwnProperty).map(rewrite)`: keep the ranges whose
   * storage key is in the table, in order, and rewrite their keys.
   */
  function FilterEntityRanges(ranges: seq<EntityRange<string>>, remap: map<string, EntityKey>)
    : (kept: seq<EntityRange<EntityKey>>)
    ensures |kept| <= |ranges|
    ensures forall j :: 0 <= j < |kept| ==> kept[j].key in remap.Values
    decreases |ranges|
  {
    if ranges == [] then []
    else
      var rest := FilterEntityRanges(ranges[1..], remap);
      if ranges[0].key in remap then [RewriteKey(ranges[0], remap)] + rest else rest
  }

  /**
   * A range reaches the decoder exactly when it is the rewrite of an input
   * range whose storage key is in the table.
   */
  lemma {:induction false} FilterEntityRangesMembership(
    ranges: seq<EntityRange<string>>, remap: map<string, EntityKey>, x: EntityRange<EntityKey>)
    ensures x in FilterEntityRanges(ranges, remap) <==>
      exists r :: r in ranges && r.key in remap && x == RewriteKey(r, remap)
    decreases |ranges|
  {
    if ranges != [] {
      FilterEntityRangesMembership(ranges[1..], remap, x);
      assert ranges == [ranges[0]] + ranges[1..];
      if x in FilterEntityRanges(ranges[1..], remap) {
        var r :| r in ranges[1..] && r.key in remap && x == RewriteKey(r, remap);
        assert r in ranges;
      }
      if exists r :: r in ranges && r.key in remap && x == RewriteKey(r, remap) {
        var r :| r in ranges && r.key in remap && x == RewriteKey(r, remap);
        if r != ranges[0] {
          assert r in ranges[1..];
        }
      }
    }
  }

  /** Filtering distributes over concatenation: relative order is kept. */
  lemma {:induction false} FilterEntityRangesAppend(
    a: seq<EntityRange<string>>, b: seq<EntityRange<string>>, remap: map<string, EntityKey>)
    ensures FilterEntityRanges(a + b, remap) == FilterEntityRanges(a, remap) + FilterEntityRanges(b, remap)
    decreases |a|
  {
    if a != [] {
      assert (a + b)[1..] == a[1..] + b;
      FilterEntityRangesAppend(a[1..], b, remap);
    } else {
      assert a + b == b;
    }
  }

  /** One range: kept and rewritten when its key is in the table, dropped otherwise. */
  lemma FilterEntityRangesSingle(r: EntityRange<string>, remap: map<string, EntityKey>)
    ensures r.key in remap ==> FilterEntityRanges([r], remap) == [RewriteKey(r, remap)]
    ensures r.key !in remap ==> FilterEntityRanges([r], remap) == []
  {
    assert [r][1..] == [];
  }

  /** When every storage key is in the table nothing is dropped: each range is rewritten in place. */
  lemma {:induction false} FilterEntityRangesAllKnown(ranges: seq<EntityRange<string>>, remap: map<string, EntityKey>)
    requires forall i :: 0 <= i < |ranges| ==> ranges[i].key in remap
    ensures |FilterEntityRanges(ranges, remap)| == |ranges|
    ensures forall i :: 0 <= i < |ranges| ==> FilterEntityRanges(ranges, remap)[i] == RewriteKey(ranges[i], remap)
    decreases |ranges|
  {
    if ranges != [] {
      FilterEntityRangesAllKnown(ranges[1..], remap);
    }
  }

  /** When no storage key is in the table, every range is dropped. */
  lemma {:induction false} FilterEntityRangesAllDangling(ranges: seq<EntityRange<string>>, remap: map<string, EntityKey>)
    requires forall i :: 0 <= i < |ranges| ==> ranges[i].key !in remap
    ensures FilterEntityRanges(ranges, remap) == []
    decreases |ranges|
  {
    if ranges != [] {
      FilterEntityRangesAllDangling(ranges[1..], remap);
    }
  }

  /**
   * The callback of `blocks.map`, for one block whose key, if it needs one, is
   * `generatedKey`: default the optional fields, decode the style ranges, filter and rewrite
   * the entity ranges, decode them, combine both into the character list.
   */
  function ConvertBlock(b: RawBlock, generatedKey: string, remap: map<string, EntityKey>, c: Collaborators)
    : (block: ContentBlock)
    ensures HasUsableKey(b) ==> block.key == b.key.value
    ensures !HasUsableKey(b) ==> block.key == generatedKey
    ensures block.blockType == b.blockType && block.text == b.text
    ensures block.depth == if b.depth.Some? then b.depth.value else 0
    ensures LengthPreserving(c) ==> |block.characterList| == |b.text|
  {
    var n := Normalize(b, generatedKey);
    var inlineStyles := c.decodeInlineStyleRanges(n.text, n.inlineStyleRanges);
    var entities := c.decodeEntityRanges(n.text, FilterEntityRanges(n.entityRanges, remap));
    ContentBlock(n.key, n.blockType, n.text, n.depth, c.createCharacterList(inlineStyles, entities))
  }

  /**
   * The entity ranges of `b` that `ConvertBlock` hands to the entity decoder:
   * none when the block has no range list, never more than it lists, and each
   * carrying a key of the table.
   */
  function DecodedEntityRanges(b: RawBlock, remap: map<string, EntityKey>): (kept: seq<EntityRange<EntityKey>>)
    ensures b.entityRanges.None? ==> kept == []
    ensures |kept| <= |b.entityRanges.GetOr([])|
    ensures forall j :: 0 <= j < |kept| ==> kept[j].key in remap.Values
  {
    FilterEntityRanges(b.entityRanges.GetOr([]), remap)
  }

  /**
   * Every key the entity decoder receives was issued by the registry in the
   * entity pass (the table is a bijection onto the keys issued after `lo`).
   */
  lemma DecodedKeysAreIssued(b: RawBlock, remap: map<string, EntityKey>, lo: nat, hi: nat)
    requires FreshBijection(remap, lo, hi)
    ensures forall r :: r in DecodedEntityRanges(b, remap) ==> lo < r.key <= hi
  {
    forall r | r in DecodedEntityRanges(b, remap)
      ensures lo < r.key <= hi
    {
      var s :| s in remap && remap[s] == r.key;
    }
  }

  /**
   * An entity on any character of a converted block is the local key of one of
   * the block's own ranges whose storage key is in the table: a dangling
   * reference never puts an entity on a character.
   */
  lemma CharacterEntitiesResolve(b: RawBlock, generatedKey: string, remap: map<string, EntityKey>, c: Collaborators)
    requires LengthPreserving(c) && EntitiesFromRanges(c) && BuilderKeepsEntities(c)
    ensures forall i ::
      (0 <= i < |ConvertBlock(b, generatedKey, remap, c).characterList| &&
       ConvertBlock(b, generatedKey, remap, c).characterList[i].entity.Some?) ==>
        exists r :: r in b.entityRanges.GetOr([]) && r.key in remap &&
          remap[r.key] == ConvertBlock(b, generatedKey, remap, c).characterList[i].entity.value
  {
    var block := ConvertBlock(b, generatedKey, remap, c);
    var ranges := b.entityRanges.GetOr([]);
    var kept := FilterEntityRanges(ranges, remap);
    var entities := c.decodeEntityRanges(b.text, kept);
    forall i | 0 <= i < |block.characterList| && block.characterList[i].entity.Some?
      ensures exists r :: r in ranges && r.key in remap && remap[r.key] == block.characterList[i].entity.value
    {
      assert block.characterList[i].entity == entities[i];
      var x :| x in kept && x.key == entities[i].value;
      FilterEntityRangesMembership(ranges, remap, x);
      var r :| r in ranges && r.key in remap && x == RewriteKey(r, remap);
    }
  }

  /** A block whose every range is dangling gets no entity on any character. */
  lemma DanglingBlockHasNoEntities(b: RawBlock, generatedKey: string, remap: map<string, EntityKey>, c: Collaborators)
    requires LengthPreserving(c) && EntitiesFromRanges(c) && BuilderKeepsEntities(c)
    requires forall r :: r in b.entityRanges.GetOr([]) ==> r.key !in remap
    ensures forall i :: 0 <= i < |ConvertBlock(b, generatedKey, remap, c).characterList| ==>
      ConvertBlock(b, generatedKey, remap, c).characterList[i].entity.None?
  {
    CharacterEntitiesResolve(b, generatedKey, remap, c);
  }

  /**
   * `blocks.map(...)` on values: block i converted with key `keys[i]` on offer.
   * The output keeps the input's length and order.
   */
  function ConvertAll(blocks: seq<RawBlock>, keys: seq<string>, remap: map<string, EntityKey>, c: Collaborators)
    : (converted: seq<ContentBlock>)
    requires |keys| == |blocks|
    ensures |converted| == |blocks|
    ensures forall i :: 0 <= i < |blocks| ==> converted[i] == ConvertBlock(blocks[i], keys[i], remap, c)
    decreases |blocks|
  {
    if blocks == [] then []
    else
      var n := |blocks| - 1;
      ConvertAll(blocks[..n], keys[..n], remap, c) + [ConvertBlock(blocks[n], keys[n], remap, c)]
  }

  /**
   * The keys drawn from the generator while the first `|keys|` blocks were
   * converted: those offered to blocks without a usable key.
   */
  ghost function GeneratedKeys(blocks: seq<RawBlock>, keys: seq<string>): set<string>
    requires |keys| <= |blocks|
    decreases |keys|
  {
    if keys == [] then {}
    else
      var n := |keys| - 1;
      GeneratedKeys(blocks, keys[..n]) + (if HasUsableKey(blocks[n]) then {} else {keys[n]})
  }

  /**
   * What the block pass promises about the keys it offered the first `|keys|`
   * blocks: a usable key is kept, every other block gets a non-empty key that
   * was not among `seen0`, and no two blocks get the same drawn key.
   */
  ghost predicate KeysResolved(blocks: seq<RawBlock>, keys: seq<string>, seen0: set<string>)
    requires |keys| <= |blocks|
  {
    && (forall j :: 0 <= j < |keys| && HasUsableKey(blocks[j]) ==> keys[j] == blocks[j].key.value)
    && (forall j :: 0 <= j < |keys| && !HasUsableKey(blocks[j]) ==> keys[j] != "" && keys[j] !in seen0)
    && (forall j, k :: 0 <= j < k < |keys| && !HasUsableKey(blocks[j]) && !HasUsableKey(blocks[k]) ==>
          keys[j] != keys[k])
  }

  /** The drawn keys are exactly the keys offered to blocks without a usable key. */
  lemma {:induction false} GeneratedKeysMembership(blocks: seq<RawBlock>, keys: seq<string>, k: string)
    requires |keys| <= |blocks|
    ensures k in GeneratedKeys(blocks, keys) <==>
      exists j :: 0 <= j < |keys| && !HasUsableKey(blocks[j]) && keys[j] == k
    decreases |keys|
  {
    if keys != [] {
      var n := |keys| - 1;
      GeneratedKeysMembership(blocks, keys[..n], k);
      if k in GeneratedKeys(blocks, keys[..n]) {
        var j :| 0 <= j < n && !HasUsableKey(blocks[j]) && keys[..n][j] == k;
      }
      if j :| 0 <= j < |keys| && !HasUsableKey(blocks[j]) && keys[j] == k {
        if j < n {
          assert keys[..n][j] == keys[j];
        }
      }
    }
  }

  /**
   * One step of the block pass: offering the next block its own usable key, or
   * a non-empty key that is neither in `seen0` nor among those drawn so far,
   * keeps `KeysResolved`, and the drawn keys grow by exactly that key.
   */
  lemma KeysResolvedSnoc(blocks: seq<RawBlock>, keys: seq<string>, seen0: set<string>, key: string)
    requires |keys| < |blocks| && KeysResolved(blocks, keys, seen0)
    requires HasUsableKey(blocks[|keys|]) ==> key == blocks[|keys|].key.value
    requires !HasUsableKey(blocks[|keys|]) ==> key != "" && key !in seen0 + GeneratedKeys(blocks, keys)
    ensures KeysResolved(blocks, keys + [key], seen0)
    ensures GeneratedKeys(blocks, keys + [key])
      == GeneratedKeys(blocks, keys) + (if HasUsableKey(blocks[|keys|]) then {} else {key})
  {
    assert (keys + [key])[..|keys|] == keys;
    forall j | 0 <= j < |keys| && !HasUsableKey(blocks[j])
      ensures keys[j] in GeneratedKeys(blocks, keys)
    {
      GeneratedKeysMembership(blocks, keys, keys[j]);
    }
  }

  /** `key || generateBlockKey()` for one block: the generator is drawn from only when the key is unusable. */
  method ResolveKey(b: RawBlock, keygen: BlockKeys.BlockKeyGenerator) returns (key: string)
    requires keygen.Valid()
    modifies keygen
    ensures keygen.Valid()
    ensures HasUsableKey(b) ==> key == b.key.value && keygen.seenKeys == old(keygen.seenKeys)
    ensures !HasUsableKey(b) ==>
      key != "" && key !in old(keygen.seenKeys) && keygen.seenKeys == old(keygen.seenKeys) + {key}
  {
    if HasUsableKey(b) {
      key := b.key.value;
    } else {
      key := keygen.Generate();
    }
  }

  /**
   * `key || generateBlockKey()` for each block in order: a block's own usable
   * key is kept, and a fresh key is drawn from the generator for every other
   * block, one draw per such block.
   */
  method ResolveKeys(blocks: seq<RawBlock>, keygen: BlockKeys.BlockKeyGenerator) returns (keys: seq<string>)
    requires keygen.Valid()
    modifies keygen
    ensures keygen.Valid()
    ensures |keys| == |blocks|
    ensures forall i :: 0 <= i < |blocks| && HasUsableKey(blocks[i]) ==> keys[i] == blocks[i].key.value
    ensures forall i :: 0 <= i < |blocks| && !HasUsableKey(blocks[i]) ==>
      keys[i] != "" && keys[i] !in old(keygen.seenKeys)
    ensures forall i, j :: 0 <= i < j < |blocks| && !HasUsableKey(blocks[i]) && !HasUsableKey(blocks[j]) ==>
      keys[i] != keys[j]
    ensures keygen.seenKeys == old(keygen.seenKeys) + GeneratedKeys(blocks, keys)
  {
    keys := [];
    for i := 0 to |blocks|
      invariant keygen.Valid()
      invariant |keys| == i
      invariant KeysResolved(blocks, keys, old(keygen.seenKeys))
      invariant keygen.seenKeys == old(keygen.seenKeys) + GeneratedKeys(blocks, keys)
    {
      var key := ResolveKey(blocks[i], keygen);
      KeysResolvedSnoc(blocks, keys, old(keygen.seenKeys), key);
      keys := keys + [key];
    }
  }

  // ---------------------------------------------------------------------
  // The whole conversion
  // ---------------------------------------------------------------------

  /**
   * convertFromRawToDraftState: the entity pass, then the block pass, returning
   * the converted blocks in input order. `fromStorageToLocal` is the table the
   * block pass reads and `keys` the key each block was offered; both are ghost,
   * being local to the call.
   */
  method ConvertFromRawToDraftState(
    rawState: RawContentState,
    registry: DraftEntity.EntityRegistry,
    keygen: BlockKeys.BlockKeyGenerator,
    c: Collaborators
  ) returns (blocks: seq<ContentBlock>, ghost fromStorageToLocal: map<string, EntityKey>, ghost keys: seq<string>)
    requires registry.Valid() && keygen.Valid()
    modifies registry, keygen
    ensures registry.Valid() && keygen.Valid()
    // entity pass
    ensures fromStorageToLocal.Keys == rawState.entityMap.Keys
    ensures registry.instanceKey == old(registry.instanceKey) + |rawState.entityMap|
    ensures FreshBijection(fromStorageToLocal, old(registry.instanceKey), registry.instanceKey)
    ensures forall s :: s in rawState.entityMap ==>
      RegisteredAs(registry.instances, fromStorageToLocal[s], rawState.entityMap[s])
    ensures forall k :: k in old(registry.instances) ==>
      k in registry.instances && registry.instances[k] == old(registry.instances)[k]
    ensures registry.instances.Keys == old(registry.instances).Keys + fromStorageToLocal.Values
    // block pass
    ensures |keys| == |rawState.blocks| && blocks == ConvertAll(rawState.blocks, keys, fromStorageToLocal, c)
    ensures |blocks| == |rawState.blocks|
    ensures forall i :: 0 <= i < |blocks| ==>
      blocks[i].blockType == rawState.blocks[i].blockType && blocks[i].text == rawState.blocks[i].text
    ensures forall i :: 0 <= i < |blocks| && HasUsableKey(rawState.blocks[i]) ==>
      blocks[i].key == rawState.blocks[i].key.value
    ensures forall i :: 0 <= i < |blocks| && !HasUsableKey(rawState.blocks[i]) ==>
      blocks[i].key != "" && blocks[i].key !in old(keygen.seenKeys)
    ensures forall i, j :: 0 <= i < j < |blocks| && !HasUsableKey(rawState.blocks[i]) && !HasUsableKey(rawState.blocks[j]) ==>
      blocks[i].key != blocks[j].key
    ensures keygen.seenKeys == old(keygen.seenKeys) + GeneratedKeys(rawState.blocks, keys)
    ensures forall i, r :: 0 <= i < |rawState.blocks| && r in DecodedEntityRanges(rawState.blocks[i], fromStorageToLocal) ==>
      old(registry.instanceKey) < r.key <= registry.instanceKey
  {
    ghost var lo := registry.instanceKey;
    var remap := RemapEntities(rawState.entityMap, registry);
    fromStorageToLocal := remap;
    var blockKeys := ResolveKeys(rawState.blocks, keygen);
    keys := blockKeys;
    blocks := ConvertAll(rawState.blocks, blockKeys, remap, c);
    forall i | 0 <= i < |rawState.blocks|
      ensures forall r :: r in DecodedEntityRanges(rawState.blocks[i], remap) ==> lo < r.key <= registry.instanceKey
    {
      DecodedKeysAreIssued(rawState.blocks[i], remap, lo, registry.instanceKey);
    }
  }
}
