/**
 * The type reflector of src/index.ts: `buildPrimitiveType`, `buildType` and
 * `typeToJson` (src/index.ts:38-143), over the checker answers in `TsType`.
 *
 * The object built by `buildType` has a `children` property that may hold
 * `undefined`; the one built by `buildPrimitiveType` has none, and a record
 * entry gets one only when it is not primitive. `JSON.stringify` writes the
 * absent and the undefined property alike (not at all), and so this model
 * writes both as `Undefined`.
 */
module Reflector {
  import opened TypeFlags
  import opened Options
  import opened Checker
  import opened JsArrays
  import opened JsDoc
  import opened JsObjects

  /** The object literal that `buildType`, `buildPrimitiveType` and the record loop build. */
  datatype Description = Description(
    typeName: string,
    optional: bool,
    union: bool,
    literal: bool,
    isArray: bool,         // the JSON key `array`
    primitive: bool,
    tags: seq<Tag>,
    children: Reflection)

  /** What `typeToJson` returns. */
  datatype Reflection =
    | Undefined                                 // `undefined`
    | Text(text: string)                        // a dequoted literal of a symbol-less type
    | Items(items: seq<Description>)            // union members or array type arguments
    | Flat(flat: Description)                   // `buildPrimitiveType(type, checker)`
    | Object(fields: seq<Entry<Description>>)   // the record dictionary `json`

  /** `s.replaceAll("\"", "")` */
  function RemoveQuotes(s: string): (r: string)
    ensures '"' !in r
    ensures multiset(r) == multiset(s)['"' := 0]
    ensures '"' !in s ==> r == s
  {
    if s == [] then []
    else
      assert s == [s[0]] + s[1..];
      if s[0] == '"' then RemoveQuotes(s[1..]) else [s[0]] + RemoveQuotes(s[1..])
  }

  /** `tags || []` */
  function TagsOrEmpty(tags: Option<seq<Tag>>): seq<Tag> {
    match tags
    case None => []
    case Some(ts) => ts
  }

  /** `buildPrimitiveType(type, checker, tags)`: the flat description, without `children`. */
  function BuildPrimitiveType(t: TsType, tags: Option<seq<Tag>>): (d: Description)
    ensures d.children.Undefined?
    ensures IsPrimitiveType(t.flags) ==> d.primitive && !d.union
    ensures IsPrimitiveType(t.flags) ==> (d.optional <==> t.flags == TypeFlags.Undefined)
  {
    Description(
      t.display,
      HasFlag(t.flags, TypeFlags.Undefined),
      HasFlag(t.flags, Union),
      t.isLiteral,
      t.isArray,
      IsPrimitiveType(t.flags),
      TagsOrEmpty(tags),
      Reflection.Undefined)
  }

  /** The tags `buildType` reads from the first declaration of the type's own symbol. */
  function SymbolTags(t: TsType): seq<Tag> {
    match t.symbol
    case None => []
    case Some(symbol) => DeclarationTags(symbol.declarations)
  }

  /**
   * `buildType(type, checker)`. A primitive has no children; a union has one
   * child per member; and `children` is never the flat description of
   * `buildPrimitiveType`, because `buildType` tests for a primitive before it
   * calls `typeToJson`.
   */
  function BuildType(t: TsType): (d: Description)
    ensures d.primitive ==> d.children == Reflection.Undefined
    ensures !d.children.Flat?
    ensures d.union ==> d.children.Items? && |d.children.items| == |t.unionMembers|
    decreases t, 3, 0
  {
    var isPrimitive := IsPrimitiveType(t.flags);
    Description(
      t.display,
      HasFlag(t.flags, TypeFlags.Undefined),
      HasFlag(t.flags, Union),
      t.isLiteral,
      t.isArray,
      isPrimitive,
      SymbolTags(t),
      if isPrimitive then Reflection.Undefined else TypeToJson(t))
  }

  /**
   * `typeToJson(type, checker)`: the cascade union, primitive, no symbol,
   * array, record; the first test that holds decides.
   * The `.filter(c => c)` of the union branch keeps every element, since
   * `buildType` always returns an object, and an object is truthy.
   * The result is flat only for a primitive, a dequoted literal has no `"`,
   * and a record has each key once.
   */
  function TypeToJson(t: TsType): (r: Reflection)
    ensures r.Flat? <==> !IsUnion(t) && IsPrimitiveType(t.flags)
    ensures IsUnion(t) ==> r.Items? && |r.items| == |t.unionMembers|
    ensures r.Text? ==> '"' !in r.text
    ensures r.Object? ==> DistinctKeys(r.fields)
    decreases t, 2, 0
  {
    if IsUnion(t) then
      Items(UnionItems(t))
    else if IsPrimitiveType(t.flags) then
      Flat(BuildPrimitiveType(t, None))
    else if t.symbol.None? then
      if t.isLiteral then Text(RemoveQuotes(t.display))
      // the second primitive test of the source: already excluded above
      else if IsPrimitiveType(t.flags) then Flat(BuildPrimitiveType(t, None))
      else Reflection.Undefined
    else if t.isArray then
      Items(seq(|t.typeArguments|, i requires 0 <= i < |t.typeArguments| => BuildType(t.typeArguments[i])))
    else
      PutAllKeys(PropertyEntries(t));
      Object(PutAll(PropertyEntries(t)))
  }

  /** `type.types.map((t) => buildType(t, checker)).filter(c => c)` */
  function UnionItems(t: TsType): seq<Description>
    decreases t, 1, 1
  {
    FilterObjects(seq(|t.unionMembers|, i requires 0 <= i < |t.unionMembers| => BuildType(t.unionMembers[i])))
  }

  /** The `isPrimitive` of a record entry: the flag test, or a type displayed as `boolean`. */
  predicate EntryIsPrimitive(propType: TsType) {
    IsPrimitiveType(propType.flags) || propType.display == "boolean"
  }

  /** The entry `json[propName]` holds after the loop body for property `i` of `t`. */
  function PropertyEntry(t: TsType, i: nat): (d: Description)
    requires i < |t.properties|
    ensures d.primitive ==> d.children == Reflection.Undefined
    ensures !d.children.Flat?
    ensures forall tag :: tag in d.tags ==>
      |t.properties[i].symbol.declarations| > 0 && tag.field == t.properties[i].symbol.declarations[0].nameText
    decreases t, 0, 0
  {
    var prop := t.properties[i];
    var propType := prop.propType;
    var isPrimitive := EntryIsPrimitive(propType);
    Description(
      propType.display,
      HasFlag(propType.flags, TypeFlags.Undefined),
      HasFlag(propType.flags, Union),
      propType.isLiteral,
      propType.isArray,
      isPrimitive,
      DeclarationTags(prop.symbol.declarations),
      if isPrimitive then Reflection.Undefined else TypeToJson(propType))
  }

  /** Each property's name with the entry the loop stores for it, in property order. */
  function PropertyEntries(t: TsType): (es: seq<Entry<Description>>)
    decreases t, 1, 0
  {
    seq(|t.properties|, i requires 0 <= i < |t.properties| => Entry(t.properties[i].symbol.name, PropertyEntry(t, i)))
  }

  /**
   * The record branch of `typeToJson` (src/index.ts:109-142): a loop over the
   * properties that stores each entry in `json`, then adds `children` to the
   * stored entry when it is not primitive.
   */
  method BuildRecord(t: TsType) returns (json: seq<Entry<Description>>)
    ensures json == PutAll(PropertyEntries(t))
  {
    ghost var es := PropertyEntries(t);
    json := [];
    for i := 0 to |t.properties|
      invariant json == PutAll(es[..i])
    {
      json := StoreProperty(json, t, i);
      assert es[..i + 1][..i] == es[..i];
    }
    assert es[..|t.properties|] == es;
  }

  /** The loop body for property `i`: `json[propName] = {...}`, then `json[propName].children = ...` unless primitive. */
  method StoreProperty(json: seq<Entry<Description>>, t: TsType, i: nat) returns (json': seq<Entry<Description>>)
    requires i < |t.properties|
    ensures json' == Put(json, t.properties[i].symbol.name, PropertyEntry(t, i))
  {
    var prop := t.properties[i];
    var tags := DeclarationTags(prop.symbol.declarations);
    var propName := prop.symbol.name;
    var propType := prop.propType;
    var typeName := propType.display;
    var isOptional := HasFlag(propType.flags, TypeFlags.Undefined);
    var isUnion := HasFlag(propType.flags, Union);
    var isArray := propType.isArray;
    var isPrimitive := IsPrimitiveType(propType.flags) || typeName == "boolean";

    var entry := Description(typeName, isOptional, isUnion, propType.isLiteral, isArray, isPrimitive, tags, Reflection.Undefined);
    json' := Put(json, propName, entry);
    if !isPrimitive {
      PutGet(json, propName, entry);
      var stored := Get(json', propName).value;
      PutPut(json, propName, stored, stored.(children := TypeToJson(propType)));
      json' := Put(json', propName, stored.(children := TypeToJson(propType)));
    }
  }
}
