/**
 * The `ts.TypeFlags` bits the reflector inspects, and the primitive test
 * `isPrimitiveType` (src/index.ts:7-23).
 *
 * A flag set is a 32-bit vector; the constants carry the values of
 * TypeScript's `TypeFlags` enumeration, one bit per flag.
 */
module TypeFlags {

  type Flags = bv32

  const Any: Flags := 0x1
  const Unknown: Flags := 0x2
  const String: Flags := 0x4
  const Number: Flags := 0x8
  const Boolean: Flags := 0x10
  const Enum: Flags := 0x20
  const BigInt: Flags := 0x40
  const StringLiteral: Flags := 0x80
  const NumberLiteral: Flags := 0x100
  const BooleanLiteral: Flags := 0x200
  const EnumLiteral: Flags := 0x400
  const BigIntLiteral: Flags := 0x800
  const ESSymbol: Flags := 0x1000
  const UniqueESSymbol: Flags := 0x2000
  const Void: Flags := 0x4000
  const Undefined: Flags := 0x8000
  const Null: Flags := 0x1_0000
  const Never: Flags := 0x2_0000
  const TypeParameter: Flags := 0x4_0000
  const Object: Flags := 0x8_0000
  const Union: Flags := 0x10_0000
  const Intersection: Flags := 0x20_0000

  /** The union of the ten flags `isPrimitiveType` accepts. */
  const PrimitiveMask: Flags :=
    String | Number | Boolean | EnumLiteral | BigIntLiteral | ESSymbol | Void | Undefined | Null | Never

  /** `flags & bit ? true : false` */
  predicate HasFlag(flags: Flags, bit: Flags) {
    flags & bit != 0
  }

  /** Exactly one bit is set. */
  predicate SingleBit(flags: Flags) {
    flags != 0 && flags & (flags - 1) == 0
  }

  /**
   * The `switch (type.getFlags())`: exact equality against ten cases.
   * Equivalently, the flag set is one single bit, and that bit is one of
   * the primitive flags; a set with any further bit is not primitive.
   */
  predicate IsPrimitiveType(flags: Flags)
    ensures IsPrimitiveType(flags) <==> SingleBit(flags) && flags & PrimitiveMask == flags
  {
    || flags == String
    || flags == Number
    || flags == Boolean
    || flags == EnumLiteral
    || flags == BigIntLiteral
    || flags == ESSymbol
    || flags == Void
    || flags == Undefined
    || flags == Null
    || flags == Never
  }

  /**
   * A primitive flag combined with any other bit is not primitive, even when
   * that other bit is itself a primitive flag.
   */
  lemma CombinedFlagsNotPrimitive(p: Flags, other: Flags)
    requires IsPrimitiveType(p)
    requires other & p == 0 && other != 0
    ensures !IsPrimitiveType(p | other)
  {
    assert (p | other) & p == p;
    assert (p | other) != p;
  }

  /** A primitive flag set never carries the Union bit (the union test comes first, but cannot shadow it). */
  lemma PrimitiveIsNotUnion(flags: Flags)
    requires IsPrimitiveType(flags)
    ensures !HasFlag(flags, Union)
  {
  }

  /** The optional test on a primitive: only `undefined` itself is optional. */
  lemma PrimitiveOptionalIffUndefined(flags: Flags)
    requires IsPrimitiveType(flags)
    ensures HasFlag(flags, Undefined) <==> flags == Undefined
  {
  }
}
