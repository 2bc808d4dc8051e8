/**
 * What the reflector promises, proved about the functions of `Reflector`.
 */
module ReflectorFacts {
  import opened TypeFlags
  import opened Options
  import opened Checker
  import opened JsDoc
  import opened JsObjects
  import opened Reflector

  /**
   * A union reflects to one `buildType` result per member, in member order
   * (src/index.ts:84-86): the truthiness filter drops nothing, because every
   * element `buildType` returns is an object.
   */
  lemma UnionOnePerMember(t: TsType)
    requires IsUnion(t)
    ensures TypeToJson(t) == Items(seq(|t.unionMembers|, i requires 0 <= i < |t.unionMembers| => BuildType(t.unionMembers[i])))
  {
  }

  /** `replaceAll` works character by character, so it keeps the order of what it keeps. */
  lemma {:induction false} RemoveQuotesAppend(a: string, b: string)
    ensures RemoveQuotes(a + b) == RemoveQuotes(a) + RemoveQuotes(b)
  {
    if a != [] {
      assert (a + b)[1..] == a[1..] + b;
      RemoveQuotesAppend(a[1..], b);
    } else {
      assert a + b == b;
    }
  }

  /** Together with `RemoveQuotesAppend`, this fixes `RemoveQuotes` on every string. */
  lemma RemoveQuotesChar(c: char)
    ensures RemoveQuotes([c]) == if c == '"' then [] else [c]
  {
  }

  /** A primitive type reflects to a flat, non-union description without children or tags (src/index.ts:88-90). */
  lemma PrimitiveIsFlat(t: TsType)
    requires IsPrimitiveType(t.flags)
    ensures TypeToJson(t).Flat?
    ensures TypeToJson(t).flat.primitive && !TypeToJson(t).flat.union
    ensures TypeToJson(t).flat.children == Reflection.Undefined && TypeToJson(t).flat.tags == []
    ensures TypeToJson(t).flat.optional <==> t.flags == TypeFlags.Undefined
  {
    PrimitiveIsNotUnion(t.flags);
    PrimitiveOptionalIffUndefined(t.flags);
  }

  /**
   * A non-union, non-primitive type without a symbol reflects to its dequoted
   * display string when it is a literal and to `undefined` otherwise: the
   * second primitive test (src/index.ts:98-100) never decides anything.
   */
  lemma SymbolLessType(t: TsType)
    requires !IsUnion(t) && !IsPrimitiveType(t.flags) && t.symbol.None?
    ensures TypeToJson(t) == if t.isLiteral then Text(RemoveQuotes(t.display)) else Reflection.Undefined
    ensures TypeToJson(t).Text? ==> '"' !in TypeToJson(t).text
  {
  }

  /** The property names, in property order. */
  function PropertyNames(t: TsType): (names: seq<string>)
    ensures |names| == |t.properties|
  {
    seq(|t.properties|, i requires 0 <= i < |t.properties| => t.properties[i].symbol.name)
  }

  /** The properties have pairwise different names. */
  predicate DistinctNames(t: TsType) {
    forall i, j :: 0 <= i < j < |t.properties| ==> t.properties[i].symbol.name != t.properties[j].symbol.name
  }

  /** The record dictionary has each key once, and its keys are exactly the property names. */
  lemma RecordKeys(t: TsType)
    ensures DistinctKeys(PutAll(PropertyEntries(t)))
    ensures forall name :: name in Keys(PutAll(PropertyEntries(t))) <==> name in PropertyNames(t)
  {
    PutAllKeys(PropertyEntries(t));
    assert Keys(PropertyEntries(t)) == PropertyNames(t);
  }

  /**
   * With distinct names (as `getPropertiesOfType` gives them), the dictionary
   * lists one entry per property, in property order, under the property's name.
   */
  lemma RecordIsPropertyList(t: TsType)
    requires DistinctNames(t)
    ensures PutAll(PropertyEntries(t)) == PropertyEntries(t)
    ensures Keys(PutAll(PropertyEntries(t))) == PropertyNames(t)
  {
    var es := PropertyEntries(t);
    assert forall i :: 0 <= i < |es| ==> es[i].key == t.properties[i].symbol.name;
    PutAllDistinct(es);
  }

  /** With distinct names, the entry under each property's name is the one built from that property. */
  lemma RecordEntry(t: TsType, i: nat)
    requires i < |t.properties|
    requires DistinctNames(t)
    ensures Get(PutAll(PropertyEntries(t)), t.properties[i].symbol.name) == Some(PropertyEntry(t, i))
  {
    var es := PropertyEntries(t);
    RecordIsPropertyList(t);
    assert DistinctKeys(es) by {
      assert forall a :: 0 <= a < |es| ==> es[a].key == t.properties[a].symbol.name;
    }
    GetDistinct(es, i);
    assert es[i] == Entry(t.properties[i].symbol.name, PropertyEntry(t, i));
  }

  /**
   * An entry of the record (src/index.ts:119-139) is what `buildType` gives
   * for the property's type, except that its tags come from the property's
   * own declaration, and that a type displayed as `boolean` that is not a
   * primitive flag set (the union `true | false`) counts as primitive, so it
   * gets no children.
   */
  lemma PropertyEntryIsBuildType(t: TsType, i: nat)
    requires i < |t.properties|
    ensures var p := t.properties[i];
      PropertyEntry(t, i) ==
        if p.propType.display == "boolean" && !IsPrimitiveType(p.propType.flags)
        then BuildType(p.propType).(tags := DeclarationTags(p.symbol.declarations), primitive := true,
                                    children := Reflection.Undefined)
        else BuildType(p.propType).(tags := DeclarationTags(p.symbol.declarations))
  {
  }

  /**
   * Well-formedness of a description tree, at every depth: a primitive
   * description has no children, a flat description is a primitive non-union
   * without tags, a dequoted literal has no `"`, and a record has each key once.
   */
  predicate WellFormedDescription(d: Description)
    decreases d, 1
  {
    && (d.primitive ==> d.children == Reflection.Undefined)
    && WellFormedReflection(d.children)
  }

  predicate WellFormedReflection(r: Reflection)
    decreases r, 0
  {
    match r
    case Undefined => true
    case Text(s) => '"' !in s
    case Items(ds) => forall i :: 0 <= i < |ds| ==> WellFormedDescription(ds[i])
    // reached only by a direct call of `typeToJson`: `buildType` and the
    // record loop test for a primitive first (`BuildType`, `PropertyEntry`)
    case Flat(d) => d.primitive && !d.union && d.tags == [] && d.children == Reflection.Undefined
    case Object(fs) => DistinctKeys(fs) && forall i :: 0 <= i < |fs| ==> WellFormedDescription(fs[i].value)
  }

  lemma {:induction false} BuildTypeWellFormed(t: TsType)
    ensures WellFormedDescription(BuildType(t))
    decreases t, 2, 0
  {
    if !IsPrimitiveType(t.flags) {
      TypeToJsonWellFormed(t);
    }
  }

  /** Every reflection is well formed, however deep the type. */
  lemma {:induction false} TypeToJsonWellFormed(t: TsType)
    ensures WellFormedReflection(TypeToJson(t))
    decreases t, 1, 0
  {
    if IsUnion(t) {
      forall i | 0 <= i < |t.unionMembers|
        ensures WellFormedDescription(TypeToJson(t).items[i])
      {
        BuildTypeWellFormed(t.unionMembers[i]);
      }
    } else if IsPrimitiveType(t.flags) {
      PrimitiveIsFlat(t);
    } else if t.symbol.None? {
    } else if t.isArray {
      forall i | 0 <= i < |t.typeArguments|
        ensures WellFormedDescription(TypeToJson(t).items[i])
      {
        BuildTypeWellFormed(t.typeArguments[i]);
      }
    } else {
      RecordWellFormed(t);
    }
  }

  lemma {:induction false} RecordWellFormed(t: TsType)
    ensures WellFormedReflection(Object(PutAll(PropertyEntries(t))))
    decreases t, 0, 0
  {
    var es := PropertyEntries(t);
    forall i | 0 <= i < |es|
      ensures WellFormedDescription(es[i].value)
    {
      assert es[i].value == PropertyEntry(t, i);
      if !EntryIsPrimitive(t.properties[i].propType) {
        TypeToJsonWellFormed(t.properties[i].propType);
      }
    }
    var fs := PutAll(es);
    PutAllKeys(es);
    PutAllEntries(es);
    forall i | 0 <= i < |fs|
      ensures WellFormedDescription(fs[i].value)
    {
      assert fs[i] in es;
    }
  }

  /** The reflection of a type, as its root description, is well formed. */
  lemma ReflectionWellFormed(t: TsType)
    ensures WellFormedDescription(BuildType(t))
    ensures !IsPrimitiveType(t.flags) ==> WellFormedReflection(BuildType(t).children)
  {
    BuildTypeWellFormed(t);
  }
}
