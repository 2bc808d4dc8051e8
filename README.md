# ttype-safe: type reflection and marker rewriting, in Dafny

This project models the single source file of `ttype-safe`, a TypeScript
compiler transform. It has two parts:

- The type reflector (`isPrimitiveType`, `extractJsDoc`, `buildPrimitiveType`,
  `buildType`, `typeToJson`). It walks a checked TypeScript type and produces a
  JSON-shaped description. Each description holds `type`, `optional`, `union`,
  `literal`, `array`, `primitive`, `tags` and, where present, `children`.
- The marker rewriter (the `transformer` visitor). One pass over a source file
  does three things. It replaces every `$schema<T>()` call by a string literal
  holding the description of `T`. It records that literal in the pass's
  `validators` map under the text of `T`. It renames every import specifier
  whose text contains `$validate` to `validate`.

The TypeScript checker is not part of this model. Each answer it gives the
reflector is a field of the value type `Checker.TsType`: the flag set, the
display string, `isLiteral()`, array-ness, the symbol with its declarations
and their JSDoc blocks, the union members, the resolved type arguments, and the
properties with their types. Types are finite trees.

Modules, one per concern:

- `TypeFlags` (flags.dfy): the `TypeFlags` bits as a `bv32`, with the values
  of TypeScript's enumeration, and `IsPrimitiveType`.
- `Options` (options.dfy): `Option`, a value that may be `undefined`.
- `Checker` (checker.dfy): the abstract checker answers.
- `JsArrays` (jsarrays.dfy): arrays of objects and `undefined`, and the
  truthiness filter `.filter((x) => x)` applied to them.
- `JsDoc` (jsdoc.dfy): `extractJsDoc`, the filter that follows it, and the
  `tags || []` fallback.
- `JsObjects` (jsobjects.dfy): a JavaScript object used as a dictionary. It is
  a list of entries in insertion order, and `obj[k] = v` replaces or appends.
  That is JavaScript's key order except for array-index keys and
  `__proto__` (see "## Left out").
- `Reflector` (reflector.dfy): `BuildPrimitiveType`, `BuildType` and
  `TypeToJson` as mutually recursive functions. The record branch is also the
  imperative method `BuildRecord`, whose `for` loop fills the dictionary and
  then adds `children`. It is proved equal to `PutAll(PropertyEntries(t))`,
  the assignment of every property's entry in property order.
- `ReflectorFacts` (reflector_facts.dfy): the classification, the shape of
  each branch, the record keys and entries, and a well-formedness invariant
  over whole description trees.
- `Rewriter` (rewriter.dfy): the syntax tree, the pure result `Rewrite`, and
  the class `Transformer`. The class owns the `validators` map, and its
  recursive `Visit` method updates that map while it rebuilds the tree.
- `RewriterFacts` (rewriter_facts.dfy): a second pass is the identity. The
  map's final contents come from one write per marker call, and the last
  write with each text wins.
- `Scenarios` (scenarios.dfy): three worked instances.

A call node's `kids` are its callee expression followed by its arguments. The
visitor reaches them in that order. Its `callee` field is the callee's source
text. Type-argument nodes are leaves, because a type node holds no call
expression.

Four behaviours of the code shape the model:

- A marker is any call whose callee text is `$schema`, whatever its number of
  type arguments, and the code reads `typeArguments![0]`
  (src/index.ts:155-158). A marker call without type arguments would crash,
  and `Rewriter.Ready` excludes that case as a precondition.
- `validators` is written before it is read (src/index.ts:158-159). Every
  marker call therefore gets the literal of its own type, and the map never
  lets a call skip the reflector. `RewriterFacts.ApplyLastWriteWins` states
  what the map then holds.
- There is no cycle guard in `buildType` or `typeToJson`. Only finite types
  are modelled.
- A record entry is built inline (src/index.ts:119-139), not by `buildType`.
  Its `primitive` also holds for a type displayed as `boolean`, and its
  `children` is `typeToJson` of the property type.

`JSON.stringify` writes a property holding `undefined` and a missing property
the same way, by leaving it out. The model therefore writes both as
`Reflection.Undefined`. The JSON key `array` is the field `isArray`, because
`array` is a Dafny keyword.

## Model

| member | source | states |
|---|---|---|
| TypeFlags.IsPrimitiveType | src/index.ts:7-23 | primitive iff the flag set is a single bit and that bit is one of String, Number, Boolean, EnumLiteral, BigIntLiteral, ESSymbol, Void, Undefined, Null, Never |
| TypeFlags.CombinedFlagsNotPrimitive | src/index.ts:7-23 | a primitive flag combined with any other bit is not primitive |
| TypeFlags.PrimitiveIsNotUnion | src/index.ts:84-89 | no primitive flag set has the Union bit, so the union test never shadows the primitive test |
| TypeFlags.PrimitiveOptionalIffUndefined | src/index.ts:38-42 | among primitive flag sets, only `undefined` has the optional bit |
| JsDoc.BlockEntries | src/index.ts:35 | a block's `tags?.map(...)` is one defined triple per tag when the block has tags; every defined triple names the declaration's field |
| JsDoc.FlatMapBlocks | src/index.ts:35 | every defined triple of the `flatMap` names the declaration's field |
| JsDoc.ExtractJsDoc | src/index.ts:25-36 | the result is undefined exactly when the declaration has no `jsDoc`; otherwise, once filtered, it lists every tag of every block in block order then tag order (the reference listing `TagsOf`) |
| JsArrays.DropUndefined | src/index.ts:62 | the truthiness filter keeps every object and drops every `undefined`, never lengthening the array |
| JsArrays.DropUndefinedAppend | src/index.ts:62 | the filter distributes over concatenation, so what it keeps stays in order |
| JsArrays.FilterObjects | src/index.ts:85 | filtering an array of objects only, as `map(buildType)` gives, returns it unchanged |
| JsArrays.DropUndefinedDefined | src/index.ts:85 | on an array with no `undefined` element the filter is the identity |
| JsDoc.FilteredFlatMapIsTagsOf | src/index.ts:35 | after the filter, the triples are those of all tags, in block order then tag order, and blocks without tags add nothing |
| JsDoc.TagsOfShape | src/index.ts:35 | one triple per tag, each naming the declaration's own field name as its third element |
| JsDoc.DeclarationTags | src/index.ts:59-63 | tags are non-empty only when the first declaration is a property signature with JSDoc, and every tag names that declaration |
| JsDoc.DeclarationTagsSpec | src/index.ts:113-117 | tags come from the first declaration only when it is a property signature with JSDoc; otherwise `[]`; every triple names that declaration |
| JsObjects.Get | src/index.ts:138 | `json[k]` is defined exactly when `k` is a key, and then it is the stored entry |
| JsObjects.Put | src/index.ts:127 | `json[k] = v` keeps the key order when `k` is present and appends `k` when it is not |
| JsObjects.PutGet | src/index.ts:127-138 | after `json[k] = v`, `json[k]` is `v` and every other key reads as before |
| JsObjects.PutEntries | src/index.ts:127 | the assignment adds no entry but the new one |
| JsObjects.PutDistinct | src/index.ts:110-127 | the assignment never duplicates a key |
| JsObjects.PutPut | src/index.ts:127-139 | setting the entry and then replacing it equals storing only the final entry, so the later `children` update is one assignment |
| JsObjects.PutNewKey | src/index.ts:127 | assigning a key not yet present appends the entry at the end |
| JsObjects.PutAllKeys | src/index.ts:112-127 | after all assignments, the keys are distinct and are exactly the keys assigned |
| JsObjects.PutAllDistinct | src/index.ts:112-127 | when no key is assigned twice, the object lists the entries in assignment order |
| JsObjects.PutAllEntries | src/index.ts:112-127 | every entry of the object is one of the entries assigned |
| JsObjects.GetDistinct | src/index.ts:138 | in an object with distinct keys, looking up an entry's key gives its value |
| Reflector.RemoveQuotes | src/index.ts:95 | the result has no `"`, keeps every other character with its multiplicity, and a string without `"` is returned unchanged |
| Reflector.BuildPrimitiveType | src/index.ts:38-53 | the description has no `children`; for a primitive type it is marked primitive, not a union, and optional exactly for `undefined` |
| Reflector.BuildType | src/index.ts:55-80 | a primitive description has no children; a union description has one child per member; `children` is never a flat primitive description, so both primitive branches of `typeToJson` are dead from `buildType` (see `ReflectorFacts.BuildTypeWellFormed` for the whole tree) |
| Reflector.TypeToJson | src/index.ts:83-143 | the result is flat exactly for a non-union primitive; a union gives one item per member; a dequoted literal has no `"`; a record has each key once (see `ReflectorFacts.TypeToJsonWellFormed` for every depth) |
| Reflector.PropertyEntry | src/index.ts:119-139 | a primitive entry has no children, no entry's children is flat, and every tag names the property's declaration |
| Reflector.BuildRecord | src/index.ts:109-142 | the loop's dictionary equals the assignment of every property's entry, in property order |
| Reflector.StoreProperty | src/index.ts:113-139 | one loop iteration leaves `json` as a single assignment of the property's complete entry, with `children` added exactly when it is not primitive |
| ReflectorFacts.RemoveQuotesAppend | src/index.ts:95 | removing quotes from a concatenation concatenates the results, so kept characters stay in order |
| ReflectorFacts.RemoveQuotesChar | src/index.ts:95 | a single `"` is removed and any other character is kept; with the row above this fixes the result on every string |
| ReflectorFacts.UnionOnePerMember | src/index.ts:84-86 | a union yields the `buildType` results of its members, one per member in member order: the truthiness filter drops nothing |
| ReflectorFacts.PrimitiveIsFlat | src/index.ts:88-90 | a primitive type yields a flat, non-union description with `primitive` set, no children and no tags, optional only for `undefined` |
| ReflectorFacts.SymbolLessType | src/index.ts:92-103 | without a symbol, a literal yields its dequoted display string, which has no `"`, and any other type yields undefined; the second primitive test is dead |
| ReflectorFacts.RecordKeys | src/index.ts:109-142 | the record's keys are pairwise distinct and are exactly the property names |
| ReflectorFacts.RecordIsPropertyList | src/index.ts:112-127 | with distinct property names, the record lists one entry per property, in property order, keyed by the names |
| ReflectorFacts.RecordEntry | src/index.ts:119-139 | with distinct names, the entry under each property's name is built from that property |
| ReflectorFacts.PropertyEntryIsBuildType | src/index.ts:119-139 | a record entry equals `buildType` of the property's type with the tags of the property's declaration, except that a non-primitive type displayed as `boolean` is marked primitive and gets no children |
| ReflectorFacts.BuildTypeWellFormed | src/index.ts:55-80 | `buildType` yields a well-formed tree: no primitive node has children at any depth |
| ReflectorFacts.TypeToJsonWellFormed | src/index.ts:83-143 | every `typeToJson` result is well formed at every depth: flat nodes are primitive, non-union and untagged; dequoted strings have no `"`; records have distinct keys |
| ReflectorFacts.RecordWellFormed | src/index.ts:112-140 | the record dictionary has distinct keys and well-formed entries |
| ReflectorFacts.ReflectionWellFormed | src/index.ts:55-143 | the root description of any type is well formed |
| Rewriter.Transformer.constructor | src/index.ts:146 | a pass starts with an empty `validators` map |
| Rewriter.Transformer.Visit | src/index.ts:148-170 | the visitor returns the rewritten tree, and `validators` gains one write per marker call reached, in visiting order |
| Rewriter.TransformSourceFile | src/index.ts:145-172 | one pass over a source file returns the rewritten tree |
| Rewriter.Rewrite | src/index.ts:148-172 | the tree a pass returns has no marker call and no `$validate` import left at any depth |
| Rewriter.Record | src/index.ts:155-169 | the pass only sets `validators` entries and never removes a key (its exact contents: `RewriterFacts.RecordIsMarkerWrites`) |
| RewriterFacts.ContainsIsIncludes | src/index.ts:165 | `Contains(s, sub)`, the model of `includes`, holds exactly when `sub` occurs at some index of `s` |
| RewriterFacts.ReplacementIsNotSentinel | src/index.ts:165-166 | the replacement specifier `validate` does not contain `$validate` |
| RewriterFacts.CleanIsFixedPoint | src/index.ts:165-169 | a pass over a tree with no markers or sentinel imports returns it unchanged |
| RewriterFacts.CleanRecordsNothing | src/index.ts:155-158 | such a pass writes nothing to `validators` |
| RewriterFacts.SecondPassIsIdentity | src/index.ts:148-172 | a second pass over the output is the identity and writes nothing to `validators` |
| RewriterFacts.RecordIsMarkerWrites | src/index.ts:155-163 | what a pass does to `validators` equals one `set` per marker call reached, in visiting order |
| RewriterFacts.ApplyKeys | src/index.ts:158 | the keys after the pass are the old keys plus the marker type-argument texts |
| RewriterFacts.ApplyLastWriteWins | src/index.ts:158-161 | under each text, the map holds the literal of the last marker call with that text |
| RewriterFacts.ApplyUntouched | src/index.ts:158 | a key that no marker has keeps its old value |
| RewriterFacts.PassValidators | src/index.ts:146-172 | after a whole pass from an empty map, the keys are the marker texts, and each holds the literal of the last marker call with that text |
| RewriterFacts.MarkerStoredAndReturned | src/index.ts:155-162 | visiting a marker call stores under its type-argument text exactly the node it returns, and leaves other keys alone |
| Scenarios.PersonReflection | src/index.ts:109-142 | `interface Person { name: string }` with `@minLength 3` yields one primitive entry with the triple `["minLength", "3", "name"]` and no children |
| Scenarios.StringArrayReflection | src/index.ts:105-107 | `string[]` yields a one-element sequence describing `string` |
| Scenarios.MarkerAndImportRewritten | src/index.ts:155-166 | a `$validate` import and a `$schema<Person>()` call are rewritten to `validate` and to the literal of `Person` |

## Left out

- Put: an array-index key such as `"0"` is not enumerated first in ascending numeric order, and `__proto__` is treated as an ordinary own key. JavaScript sets the prototype for `__proto__` and creates no own key. The model keeps one list in insertion order for every key.
- PutNewKey: a new array-index key goes to the end of the list, where JavaScript would place it among the other index keys in numeric order; a new `__proto__` key is appended, where JavaScript adds no own key.
- PutAllKeys: a `__proto__` assignment counts as a key of the object. In JavaScript the object would have no such own key and `JSON.stringify` would omit it.
- PutAllDistinct: with array-index keys among the entries, JavaScript enumerates those first and in numeric order, not in assignment order.
- RecordKeys: for a property named `__proto__`, the source's `json` has no such own key and its entry is not written out. The model lists it.
- RecordIsPropertyList: a property with an array-index name (`interface T { b: string; 0: number }`) is written out first by the source, before the other names. The model keeps property order.

- The TypeScript checker and factory: `typeToString`, `typeToTypeNode` with `isArrayTypeNode`, `getTypeAtLocation`, `getTypeOfSymbolAtLocation`, `getPropertiesOfType`, `isLiteral()`, `getText()` and the node factories. They are foreign library calls, and their answers are fields of `TsType`, `TypeArg` and `Node`.
- The location argument of `getTypeOfSymbolAtLocation`, the type's first declaration. Each property carries its resolved type instead.
- `JSON.stringify`. A produced literal carries the description value, not its text.
- Self-referential types. The source has no cycle guard and does not terminate on them. The model has only finite types.
- Crash paths of non-null assertions: `getDeclarations()!` returning undefined, `resolvedTypeArguments` missing on an array type, and `typeToTypeNode(...)!`. Declarations and type arguments are always lists here. A marker call with no type arguments is excluded by `Rewriter.Ready`.
- `tag.comment` is a string here. The checker may also give a node list or undefined.
- The ts-jest glue: `version = Date.now()` (clock-dependent), `name`, `factory` and the default export (src/index.ts:175-181).
- The commented-out declaration branch (src/index.ts:149-153).
- Node identity and source positions. `SecondPassIsIdentity` is stated on tree values, as if the output were printed and parsed again. The real checker would refuse `getText()` on a synthesized node.
