/**
 * `extractJsDoc` (src/index.ts:25-36) and the tag lookup that `buildType` and
 * the record branch of `typeToJson` both perform on a symbol's first
 * declaration (src/index.ts:59-64, 113-117, 51, 77, 134).
 */
module JsDoc {
  import opened Options
  import opened Checker
  import opened JsArrays

  /** The triple `[tagName, comment, fieldName]`. */
  datatype Tag = Tag(tagName: string, comment: string, field: string)

  /**
   * `doc.tags?.map(...)` for one block, as `flatMap` splices it: the mapped
   * triples, or a single `undefined` element when the block has no tags array.
   */
  function BlockEntries(block: JsDocBlock, field: string): (r: seq<Option<Tag>>)
    ensures forall e :: e in r && e.Some? ==> e.value.field == field
    ensures block.tags.Some? ==> |r| == |block.tags.value| && None !in r
  {
    match block.tags
    case None => [None]
    case Some(tags) => Defined(BlockTags(tags, field))
  }

  /** The triples of one tags array, in tag order. */
  function BlockTags(tags: seq<JsDocTag>, field: string): seq<Tag>
  {
    seq(|tags|, i requires 0 <= i < |tags| => Tag(tags[i].tagName, tags[i].comment, field))
  }

  /** `jsDoc.flatMap(...)` over a list of blocks: every triple names the field. */
  function FlatMapBlocks(blocks: seq<JsDocBlock>, field: string): (r: seq<Option<Tag>>)
    ensures forall e :: e in r && e.Some? ==> e.value.field == field
  {
    if blocks == [] then [] else BlockEntries(blocks[0], field) + FlatMapBlocks(blocks[1..], field)
  }

  /** `extractJsDoc(node)`: None when the node has no `jsDoc` field. */
  function ExtractJsDoc(decl: Declaration): (r: Option<seq<Option<Tag>>>)
    ensures r.None? <==> decl.jsDoc.None?
    ensures r.Some? ==> DropUndefined(r.value) == TagsOf(decl.jsDoc.value, decl.nameText)
  {
    match decl.jsDoc
    case None => None
    case Some(blocks) =>
      FilteredFlatMapIsTagsOf(blocks, decl.nameText);
      Some(FlatMapBlocks(blocks, decl.nameText))
  }

  /**
   * The tags recorded for a symbol with these declarations: looked up on the
   * first declaration only when it exists and is a property signature, then
   * `tags || []`.
   */
  function DeclarationTags(decls: seq<Declaration>): (r: seq<Tag>)
    ensures r != [] ==> |decls| > 0 && decls[0].isPropertySignature && decls[0].jsDoc.Some?
    ensures forall t :: t in r ==> |decls| > 0 && t.field == decls[0].nameText
  {
    if |decls| > 0 && decls[0].isPropertySignature then
      match ExtractJsDoc(decls[0])
      case None => []
      case Some(entries) => DropUndefined(entries)
    else []
  }

  /** Reference definition: every tag of every block, in block order then tag order. */
  function TagsOf(blocks: seq<JsDocBlock>, field: string): seq<Tag>
  {
    if blocks == [] then []
    else
      var own := match blocks[0].tags
        case None => []
        case Some(tags) => BlockTags(tags, field);
      own + TagsOf(blocks[1..], field)
  }

  /** Total number of tags over all blocks that have a tags array. */
  function TagCount(blocks: seq<JsDocBlock>): nat
  {
    if blocks == [] then 0
    else (if blocks[0].tags.Some? then |blocks[0].tags.value| else 0) + TagCount(blocks[1..])
  }

  /**
   * Filtering the `flatMap` result gives exactly the reference list: blocks
   * without tags contribute nothing, the rest appear in block order, then
   * tag order.
   */
  lemma {:induction false} FilteredFlatMapIsTagsOf(blocks: seq<JsDocBlock>, field: string)
    ensures DropUndefined(FlatMapBlocks(blocks, field)) == TagsOf(blocks, field)
  {
    if blocks != [] {
      DropUndefinedAppend(BlockEntries(blocks[0], field), FlatMapBlocks(blocks[1..], field));
      FilteredFlatMapIsTagsOf(blocks[1..], field);
      if blocks[0].tags.Some? {
        DropUndefinedDefined(BlockTags(blocks[0].tags.value, field));
      }
    }
  }

  /** Every triple names the given field, and there is one per tag. */
  lemma {:induction false} TagsOfShape(blocks: seq<JsDocBlock>, field: string)
    ensures |TagsOf(blocks, field)| == TagCount(blocks)
    ensures forall t :: t in TagsOf(blocks, field) ==> t.field == field
  {
    if blocks != [] {
      TagsOfShape(blocks[1..], field);
    }
  }

  /**
   * What a symbol's declarations yield as `tags`: the reference list of the
   * first declaration's blocks when it is a property signature with JSDoc,
   * otherwise `[]`; every triple names that declaration.
   */
  lemma DeclarationTagsSpec(decls: seq<Declaration>)
    ensures DeclarationTags(decls) ==
      if |decls| > 0 && decls[0].isPropertySignature && decls[0].jsDoc.Some?
      then TagsOf(decls[0].jsDoc.value, decls[0].nameText)
      else []
    ensures forall t :: t in DeclarationTags(decls) ==> t.field == decls[0].nameText
  {
    if |decls| > 0 && decls[0].isPropertySignature && decls[0].jsDoc.Some? {
      FilteredFlatMapIsTagsOf(decls[0].jsDoc.value, decls[0].nameText);
      TagsOfShape(decls[0].jsDoc.value, decls[0].nameText);
    }
  }
}
