/**
 * The data model of the conversion: the serialised ("raw") content state that
 * comes in, the content blocks that go out, and the collaborators the
 * conversion calls but does not define.
 */
module RawDraft {
  import opened Wrappers

  /** A key issued by the process-local entity registry. */
  type EntityKey = nat

  /** The `data` payload of an entity; the conversion only passes it on. */
  type EntityData = map<string, string>

  /** An entry of the raw `entityMap`; `data` may be absent. */
  datatype RawEntity = RawEntity(entityType: string, mutability: string, data: Option<EntityData>)

  datatype InlineStyleRange = InlineStyleRange(offset: int, length: int, style: string)

  /**
   * An entity range. In the raw block `K` is the storage key (a key of
   * `entityMap`); after the rewrite it is the registry's key.
   */
  datatype EntityRange<K> = EntityRange(offset: int, length: int, key: K)

  /** A raw block: `key`, `depth` and both range lists are optional. */
  datatype RawBlock = RawBlock(
    key: Option<string>,
    blockType: string,
    text: string,
    depth: Option<int>,
    inlineStyleRanges: Option<seq<InlineStyleRange>>,
    entityRanges: Option<seq<EntityRange<string>>>)

  datatype RawContentState = RawContentState(blocks: seq<RawBlock>, entityMap: map<string, RawEntity>)

  /** The set of inline styles active on one character. */
  type InlineStyle = set<string>

  /** Per-character annotation: its styles and at most one entity. */
  datatype CharacterMetadata = CharacterMetadata(style: InlineStyle, entity: Option<EntityKey>)

  /** The block record handed to the editor. */
  datatype ContentBlock = ContentBlock(
    key: string,
    blockType: string,
    text: string,
    depth: int,
    characterList: seq<CharacterMetadata>)

  /**
   * The pure collaborators of the conversion: `decodeInlineStyleRanges`,
   * `decodeEntityRanges` and `createCharacterList`. Their algorithms are not
   * part of this model; what the conversion relies on is stated by the
   * predicates below.
   */
  datatype Collaborators = Collaborators(
    decodeInlineStyleRanges: (string, seq<InlineStyleRange>) -> seq<InlineStyle>,
    decodeEntityRanges: (string, seq<EntityRange<EntityKey>>) -> seq<Option<EntityKey>>,
    createCharacterList: (seq<InlineStyle>, seq<Option<EntityKey>>) -> seq<CharacterMetadata>)

  /** Both decoders give one entry per character; the builder one per style entry. */
  ghost predicate LengthPreserving(c: Collaborators) {
    && (forall text, ranges :: |c.decodeInlineStyleRanges(text, ranges)| == |text|)
    && (forall text, ranges :: |c.decodeEntityRanges(text, ranges)| == |text|)
    && (forall styles, entities :: |c.createCharacterList(styles, entities)| == |styles|)
  }

  /** The entity decoder only assigns keys that occur in the ranges it is given. */
  ghost predicate EntitiesFromRanges(c: Collaborators) {
    forall text, ranges, i ::
      0 <= i < |c.decodeEntityRanges(text, ranges)| && c.decodeEntityRanges(text, ranges)[i].Some? ==>
        exists r: EntityRange<EntityKey> :: r in ranges && r.key == c.decodeEntityRanges(text, ranges)[i].value
  }

  /** The i-th character built carries the i-th entity assignment. */
  ghost predicate BuilderKeepsEntities(c: Collaborators) {
    forall styles, entities, i ::
      0 <= i < |c.createCharacterList(styles, entities)| && i < |entities| ==>
        c.createCharacterList(styles, entities)[i].entity == entities[i]
  }
}
