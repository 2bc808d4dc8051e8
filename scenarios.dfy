/**
 * Worked instances of the reflector and the rewriter on small concrete inputs.
 */
module Scenarios {
  import opened TypeFlags
  import opened Options
  import opened Checker
  import opened JsDoc
  import opened JsObjects
  import opened Reflector
  import opened Rewriter

  const StringType: TsType := TsType(String, "string", false, false, None, [], [], [])

  // The declaration `name: string` with a JSDoc block holding `@minLength 3`, then a block without tags.
  const NameDeclaration: Declaration :=
    Declaration(true, "name", Some([JsDocBlock(Some([JsDocTag("minLength", "3")])), JsDocBlock(None)]))

  /** `interface Person { name: string }` */
  const PersonType: TsType :=
    TsType(TypeFlags.Object, "Person", false, false,
           Some(Symbol("Person", [Declaration(false, "Person", None)])),
           [], [],
           [Property(Symbol("name", [NameDeclaration]), StringType)])

  /** `string[]` */
  const StringArrayType: TsType :=
    TsType(TypeFlags.Object, "string[]", false, true, Some(Symbol("Array", [])), [], [StringType], [])

  /**
   * A record with a tagged string property: one entry, primitive, no
   * children, carrying the triple `["minLength", "3", "name"]`; the block
   * without tags adds nothing.
   */
  lemma PersonReflection()
    ensures BuildType(PersonType).children ==
      Object([Entry("name", Description("string", false, false, false, false, true,
                                        [Tag("minLength", "3", "name")], Reflection.Undefined))])
  {
    var entry := Description("string", false, false, false, false, true, [Tag("minLength", "3", "name")], Reflection.Undefined);
    assert !IsUnion(PersonType) && !IsPrimitiveType(PersonType.flags);
    assert BlockEntries(NameDeclaration.jsDoc.value[0], "name") == [Some(Tag("minLength", "3", "name"))];
    assert FlatMapBlocks(NameDeclaration.jsDoc.value, "name") == [Some(Tag("minLength", "3", "name")), None];
    assert DeclarationTags([NameDeclaration]) == [Tag("minLength", "3", "name")];
    assert PropertyEntry(PersonType, 0) == entry;
    assert PropertyEntries(PersonType) == [Entry("name", entry)];
    assert PutAll([Entry("name", entry)]) == Put([], "name", entry);
  }

  /** `string[]` reflects to a one-element sequence describing `string`. */
  lemma StringArrayReflection()
    ensures BuildType(StringArrayType).isArray
    ensures BuildType(StringArrayType).children ==
      Items([Description("string", false, false, false, false, true, [], Reflection.Undefined)])
  {
    assert !IsUnion(StringArrayType) && !IsPrimitiveType(StringArrayType.flags);
    assert BuildType(StringType) == Description("string", false, false, false, false, true, [], Reflection.Undefined);
    assert TypeToJson(StringArrayType).items == [BuildType(StringType)];
  }

  /** `import { $validate } from "..."; const s = $schema<Person>();` after one pass. */
  lemma MarkerAndImportRewritten()
    ensures Rewrite(Other([ImportSpecifier("$validate"), Call("$schema", [TypeArg("Person", PersonType)], [])]))
         == Other([ImportSpecifier("validate"), Literal(BuildType(PersonType))])
  {
    assert Contains("$validate", "$validate");
  }
}
