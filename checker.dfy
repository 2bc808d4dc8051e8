/**
 * What the reflector asks of the TypeScript checker, as plain values.
 *
 * A `TsType` carries the answers to every checker query the reflector makes
 * about a type: its flags, `typeToString`, `isLiteral()`, whether
 * `typeToTypeNode` yields an array type node, `getSymbol()`, the members of a
 * union, the `resolvedTypeArguments` of an array, and `getPropertiesOfType`
 * with each property's `getTypeOfSymbolAtLocation`. Types are finite trees:
 * a self-referential declaration has no value here.
 */
module Checker {
  import opened TypeFlags
  import opened Options

  /** One `@tag comment` of a JSDoc block. */
  datatype JsDocTag = JsDocTag(tagName: string, comment: string)

  /** One JSDoc block; `tags` is None when the block has no `tags` array. */
  datatype JsDocBlock = JsDocBlock(tags: Option<seq<JsDocTag>>)

  /**
   * A declaration node: whether it is a property signature, the text of its
   * name, and its attached JSDoc blocks (None when it has no `jsDoc` field).
   */
  datatype Declaration = Declaration(isPropertySignature: bool, nameText: string, jsDoc: Option<seq<JsDocBlock>>)

  /** A symbol: `getName()` and `getDeclarations()`. */
  datatype Symbol = Symbol(name: string, declarations: seq<Declaration>)

  datatype TsType = TsType(
    flags: Flags,
    display: string,
    isLiteral: bool,
    isArray: bool,
    symbol: Option<Symbol>,
    unionMembers: seq<TsType>,
    typeArguments: seq<TsType>,
    properties: seq<Property>)

  /** A property symbol together with its type at the owner's declaration. */
  datatype Property = Property(symbol: Symbol, propType: TsType)

  /** `type.isUnion()`: the Union bit is set. */
  predicate IsUnion(t: TsType) {
    HasFlag(t.flags, Union)
  }
}
