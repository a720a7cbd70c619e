# convertFromRawToDraftState, modelled in Dafny

Draft.js stores editor content in a serialisable "raw" form: a list of blocks
plus an `entityMap` from storage keys to entities (links, images, ...).
`convertFromRawToDraftState` turns that raw form back into editor
`ContentBlock`s, in two passes:

1. **Entity pass.** Every entity of `entityMap` is registered with the
   process-wide entity registry (`DraftEntity.create`), which hands back a new
   local key. A table `fromStorageToLocal` records which storage key became
   which local key.
2. **Block pass.** Each raw block is converted in order:
   - optional fields are defaulted: a missing or empty key is replaced by a
     generated one, a missing depth becomes 0, and missing range lists become
     empty;
   - inline style ranges are decoded;
   - entity ranges whose storage key is not in the table are dropped, and the
     rest get their key rewritten to the local key;
   - the decoded styles and entities are combined into a per-character list.

The model keeps this structure. The files are:

- `Wrappers.dfy`: `Option`, with `GetOr` for the `x || default` idiom.
- `RawDraft.dfy`: the raw input, the output blocks, and the three decoding
  collaborators. The collaborators are function values. The conversion relies
  on three predicates about them:
  - `LengthPreserving`: both decoders give one entry per character, and the
    builder gives one entry per style entry;
  - `EntitiesFromRanges`: the entity decoder only assigns keys that appear in
    its ranges;
  - `BuilderKeepsEntities`: character i carries entity assignment i.
- `DraftEntity.dfy`: the entity registry, as a class. It holds a map of
  instances and a counter of issued keys, and `Create` stores under a fresh key.
- `BlockKeys.dfy`: the block key generator, as a class. It remembers the keys
  it has returned, and `Generate` returns a non-empty key it has never
  returned before.
- `ConvertFromRaw.dfy`: the conversion. The entity pass is an imperative loop
  against ghost specification functions. These are `RemapOf`, the table, and
  `RegistryAfter`, the registry contents. The block pass has two parts. A loop
  (`ResolveKeys`) draws block keys from the generator. The pure functions
  `ConvertBlock` and `ConvertAll` then build the blocks. `ConvertFromRawToDraftState`
  runs the two passes in turn.

Local entity keys are modelled as natural numbers issued by the counter: 1, 2,
3, .... Storage keys, block keys and text are strings.

The only state the conversion touches is the registry and the key generator.
The function receives neither of them as a parameter; the model passes both in
explicitly. The source works on one block at a time: it draws the key, then
decodes. The model draws all the keys first, then converts. The results are
the same, because the decoders are pure and draw no keys.

## Model

| member | source | states |
|---|---|---|
| DraftEntity.EntityRegistry.Create | src/model/encoding/convertFromRawToDraftState.js:35 | returns a key not used before (the counter plus one), and the registry gains exactly that entry, holding the given type, mutability and data |
| BlockKeys.BlockKeyGenerator.Generate | src/model/encoding/convertFromRawToDraftState.js:43 | returns a non-empty key never returned before, and records it as returned |
| ConvertFromRaw.DataOrEmpty | src/model/encoding/convertFromRawToDraftState.js:35 | `data \|\| {}`: the entity's data when present, the empty map when absent |
| ConvertFromRaw.RegistrationOf | src/model/encoding/convertFromRawToDraftState.js:34-35 | an entity is registered with its own type and mutability, and with its data or {} |
| ConvertFromRaw.RemapOfKeys | src/model/encoding/convertFromRawToDraftState.js:31-37 | after registering a sequence of storage keys, the table holds exactly those keys |
| ConvertFromRaw.RemapOfSize | src/model/encoding/convertFromRawToDraftState.js:31-37 | with no storage key repeated, the table has one entry per registration |
| ConvertFromRaw.RemapOfAt | src/model/encoding/convertFromRawToDraftState.js:35-36 | the i-th registered storage key maps to the (i+1)-th key issued during the pass |
| ConvertFromRaw.RemapOfIsFreshBijection | src/model/encoding/convertFromRawToDraftState.js:30-38 | the table is injective and maps onto exactly the keys issued during the pass |
| ConvertFromRaw.RegistryAfterKeys | src/model/encoding/convertFromRawToDraftState.js:31-35 | after the registrations the registry holds exactly the earlier keys plus the keys issued during the pass, and no other key |
| ConvertFromRaw.RegistryAfterKeysAreTableValues | src/model/encoding/convertFromRawToDraftState.js:31-36 | with no storage key repeated, the registry's key set grows by exactly the table's values: one insertion per registered storage key |
| ConvertFromRaw.RegistryAfterAt | src/model/encoding/convertFromRawToDraftState.js:33-35 | each key issued during the pass holds the entity of the matching storage key, and every earlier instance is unchanged |
| ConvertFromRaw.RemapOfRegistered | src/model/encoding/convertFromRawToDraftState.js:33-36 | the registry entry under each storage key's table value is that storage key's own entity |
| ConvertFromRaw.RemapComplete | src/model/encoding/convertFromRawToDraftState.js:30-38 | once every entityMap key is registered once: the table's domain is the entityMap's key set; the pass issued one key per entity; the table is a bijection onto those keys; each entity sits under its key with its own attributes; earlier instances are kept; the registry's key set is the earlier one plus the table's values |
| ConvertFromRaw.ObjectKeys | src/model/encoding/convertFromRawToDraftState.js:31 | `Object.keys`: every key of the map, each exactly once |
| ConvertFromRaw.RemapEntities | src/model/encoding/convertFromRawToDraftState.js:30-38 | one `create` per entityMap key: the table's domain is the entityMap's key set; the counter advances by the entity count; the table is a bijection onto the new keys; each entity is registered with its type, mutability and data or {}; earlier instances are unchanged; the registry gains no key beyond the table's values |
| ConvertFromRaw.HasUsableKey | src/model/encoding/convertFromRawToDraftState.js:43 | JavaScript truthiness of `key`: a key is replaced exactly when it is absent or the empty string |
| ConvertFromRaw.Normalize | src/model/encoding/convertFromRawToDraftState.js:42-46 | a non-empty key is kept and otherwise the generated key is used; an absent depth becomes 0; absent range lists become empty; type and text pass through |
| ConvertFromRaw.Denormalize | src/model/encoding/convertFromRawToDraftState.js:42-46 | a normalised block, read back as a raw block, has every optional field present |
| ConvertFromRaw.NormalizeDenormalize | src/model/encoding/convertFromRawToDraftState.js:42-46 | defaulting leaves a fully specified block unchanged, whatever key the generator would offer |
| ConvertFromRaw.NormalizeIdempotent | src/model/encoding/convertFromRawToDraftState.js:42-46 | defaulting an already defaulted block changes nothing and needs no new key |
| ConvertFromRaw.RewriteKey | src/model/encoding/convertFromRawToDraftState.js:53-54 | the rewritten range keeps offset and length, and its key is the table's value for the storage key |
| ConvertFromRaw.FilterEntityRanges | src/model/encoding/convertFromRawToDraftState.js:51-55 | no more ranges come out than went in, and every key that comes out is a value of the table |
| ConvertFromRaw.FilterEntityRangesMembership | src/model/encoding/convertFromRawToDraftState.js:51-55 | a range comes out exactly when it is the rewrite of an input range whose storage key is in the table (both directions) |
| ConvertFromRaw.FilterEntityRangesAppend | src/model/encoding/convertFromRawToDraftState.js:51-55 | filtering distributes over concatenation, so relative order is kept |
| ConvertFromRaw.FilterEntityRangesSingle | src/model/encoding/convertFromRawToDraftState.js:52-54 | one range is kept and rewritten when its key is in the table, and dropped otherwise |
| ConvertFromRaw.FilterEntityRangesAllKnown | src/model/encoding/convertFromRawToDraftState.js:51-55 | when every storage key is known, range i comes out as the rewrite of input range i, with none dropped |
| ConvertFromRaw.FilterEntityRangesAllDangling | src/model/encoding/convertFromRawToDraftState.js:51-55 | when no storage key is known, nothing comes out |
| ConvertFromRaw.ConvertBlock | src/model/encoding/convertFromRawToDraftState.js:41-61 | key rule as in Normalize; type and text kept; depth is the given one or 0; under length-preserving collaborators the character list has one entry per character of the text |
| ConvertFromRaw.DecodedEntityRanges | src/model/encoding/convertFromRawToDraftState.js:46-57 | the ranges handed to `decodeEntityRanges`: none when the block has no range list, no more than it lists, and each carrying a key of the table |
| ConvertFromRaw.DecodedKeysAreIssued | src/model/encoding/convertFromRawToDraftState.js:51-57 | when the table is a bijection onto the keys issued during the entity pass, every key handed to the entity decoder was issued during that pass |
| ConvertFromRaw.CharacterEntitiesResolve | src/model/encoding/convertFromRawToDraftState.js:51-58 | an entity on any character is the local key of one of the block's own ranges whose storage key is in the table |
| ConvertFromRaw.DanglingBlockHasNoEntities | src/model/encoding/convertFromRawToDraftState.js:51-58 | a block whose every range is dangling puts no entity on any character |
| ConvertFromRaw.ConvertAll | src/model/encoding/convertFromRawToDraftState.js:40-62 | `blocks.map`: the output has the input's length, and output i is input i converted with its own key |
| ConvertFromRaw.GeneratedKeysMembership | src/model/encoding/convertFromRawToDraftState.js:43 | the keys drawn from the generator are exactly the keys offered to blocks without a usable key |
| ConvertFromRaw.KeysResolvedSnoc | src/model/encoding/convertFromRawToDraftState.js:43 | one more block keeps its usable key, or else takes a non-empty key not drawn before; this keeps the key guarantees, and the drawn set grows by just that key |
| ConvertFromRaw.ResolveKey | src/model/encoding/convertFromRawToDraftState.js:43 | `key \|\| generateBlockKey()`: a usable key is kept and the generator is left alone; otherwise a fresh non-empty key is drawn and recorded |
| ConvertFromRaw.ResolveKeys | src/model/encoding/convertFromRawToDraftState.js:40-43 | over all blocks in order: usable keys kept; every other block gets a non-empty key not seen before the call; no two drawn keys coincide; the generator records exactly the drawn keys |
| ConvertFromRaw.ConvertFromRawToDraftState | src/model/encoding/convertFromRawToDraftState.js:25-63 | both passes together: the entity pass facts of RemapEntities, including that the registry gains exactly one entry per entityMap key; as many blocks out as in, in order, each keeping its type and text; usable keys kept and fresh, distinct keys for the rest; every key handed to the entity decoder was issued during this call |

## Left out

- The algorithms of `decodeInlineStyleRanges`, `decodeEntityRanges` and `createCharacterList`: these are not part of this model. They are parameters, and only the three predicates in `RawDraft.dfy` constrain them.
- DraftEntity's storage and validation: the registry keeps only the map of instances and the key counter. Keys are natural numbers, not the strings the registry renders them as.
- generateBlockKey's randomness and its check against keys already in use: the generator is a counter that remembers what it returned. As in the source, nothing stops a block's own key from being equal to a generated key.
- The Immutable `ContentBlock` record and the `OrderedSet` of styles: blocks are datatypes, and a character's styles are a set.
- The order of `Object.keys`: `ObjectKeys` returns every key exactly once in an unspecified order. So RemapOfAt talks about "the i-th storage key registered", not about JavaScript's property order.
- Exceptions thrown by collaborators, and the lack of rollback in the registry after a partial failure: all collaborators are total here.
- JavaScript coercions the typed model cannot express: a numeric range key converted to a string by `hasOwnProperty`; a `NaN` depth becoming 0.
- Storage keys that collide with `Object.prototype` members when `fromStorageToLocal` is assigned. For a storage key `"hasOwnProperty"`, the assignment `fromStorageToLocal[storageKey] = newKey` hides the method behind the new key, so the `filter` call throws a `TypeError` as soon as any block has an entity range. For a storage key `"__proto__"`, the entity is still registered, but the `__proto__` setter ignores the assignment, so `hasOwnProperty` is false and ranges naming that entity are dropped. The model treats the table as a plain map: it neither throws in the first case nor drops ranges in the second; it keeps and rewrites them.
- Text encoding: text is a Dafny `string`, a sequence of Unicode scalar values. The source's `text.length` and character lists count UTF-16 code units. So "one entry per character" in `LengthPreserving` and in the ConvertBlock row differs from the source for characters outside the Basic Multilingual Plane, which take two code units in JavaScript.
- Entity data values: data is a map from strings to strings. The conversion only passes data on.
- Interleaving of key draws with conversion: the source draws a block's key and then converts that block before moving to the next block. The model draws every key first, then converts all the blocks. The decoders draw no keys, so the order of key draws and the result are the same.
