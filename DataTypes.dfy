/** The index aliases and the run-time type registry of
  * src/components/core/src/common/DataTypes.hpp. */
module DataTypes {
  import opened Wrappers

  /** `localIndex` is int32 and `globalIndex` is int64. */
  newtype LocalIndex = x: int | -0x8000_0000 <= x < 0x8000_0000
  newtype GlobalIndex = x: int | -0x8000_0000_0000_0000 <= x < 0x8000_0000_0000_0000

  /** The C++ types a `std::type_index` can name. The fourteen registered
    * types, plus any other type (`Unregistered`). */
  datatype RtType =
    | Int32 | UInt32 | Int64 | UInt64 | Real32 | Real64
    | Int32Array | UInt32Array | Int64Array | UInt64Array | Real32Array | Real64Array
    | StdSizeT | String
    | Unregistered(typeName: string)

  /** `rtTypes::TypeIDs`: one variant per registered type. */
  datatype TypeId =
    | Int32Id | UInt32Id | Int64Id | UInt64Id | Real32Id | Real64Id
    | Int32ArrayId | UInt32ArrayId | Int64ArrayId | UInt64ArrayId | Real32ArrayId | Real64ArrayId
    | StdSizeTId | StringId

  /** The fourteen enumerators in declaration order. */
  const AllTypeIds: seq<TypeId> := [
    Int32Id, UInt32Id, Int64Id, UInt64Id, Real32Id, Real64Id,
    Int32ArrayId, UInt32ArrayId, Int64ArrayId, UInt64ArrayId, Real32ArrayId, Real64ArrayId,
    StdSizeTId, StringId]

  /** The type `t` is as a `std::type_index`. `sizeIsUInt64` says whether
    * `std::size_t` and `std::uint64_t` are one type on the target platform
    * (both are `unsigned long` on LP64 Linux); then `std_size_t` is
    * `uint64`. */
  function Canonical(t: RtType, sizeIsUInt64: bool): (c: RtType)
    ensures c == t || (sizeIsUInt64 && t == StdSizeT && c == UInt64)
    ensures c != StdSizeT || !sizeIsUInt64
  {
    if sizeIsUInt64 && t == StdSizeT then UInt64 else t
  }

  /** `rtTypes::typeNames`: the lookup in the fixed table; `.at` throws
    * `std::out_of_range` (here `None`) for a type that is not in it. When
    * `std::size_t` is `std::uint64_t`, the table's `std_size_t` entry repeats
    * the `uint64` key, the map keeps the first entry with that key, and the
    * type is named "uint64". */
  function TypeNames(t: RtType, sizeIsUInt64: bool): (r: Option<string>)
    ensures r.None? <==> t.Unregistered?
    ensures sizeIsUInt64 ==> r != Some("std_size_t")
  {
    match Canonical(t, sizeIsUInt64)
    case Int32 => Some("int32")
    case UInt32 => Some("uint32")
    case Int64 => Some("int64")
    case UInt64 => Some("uint64")
    case Real32 => Some("real32")
    case Real64 => Some("real64")
    case Int32Array => Some("int32_array")
    case UInt32Array => Some("uint32_array")
    case Int64Array => Some("int64_array")
    case UInt64Array => Some("uint64_array")
    case Real32Array => Some("real32_array")
    case Real64Array => Some("real64_array")
    case StdSizeT => Some("std_size_t")
    case String => Some("string")
    case Unregistered(_) => None
  }

  /** A value handed to the lambda of `ApplyTypeLambda`: the numeric types
    * carry `1`, the arrays are constructed with length `1`, the string is
    * empty. */
  datatype TypedValue =
    | Int32Val(n: int) | UInt32Val(n: int) | Int64Val(n: int) | UInt64Val(n: int)
    | Real32Val(x: real) | Real64Val(x: real)
    | Int32ArrayVal(len: nat) | UInt32ArrayVal(len: nat) | Int64ArrayVal(len: nat)
    | UInt64ArrayVal(len: nat) | Real32ArrayVal(len: nat) | Real64ArrayVal(len: nat)
    | StdSizeTVal(n: int) | StringVal(s: string)

  /** The registered type a value has. */
  function TypeOf(v: TypedValue): RtType {
    match v
    case Int32Val(_) => Int32
    case UInt32Val(_) => UInt32
    case Int64Val(_) => Int64
    case UInt64Val(_) => UInt64
    case Real32Val(_) => Real32
    case Real64Val(_) => Real64
    case Int32ArrayVal(_) => Int32Array
    case UInt32ArrayVal(_) => UInt32Array
    case Int64ArrayVal(_) => Int64Array
    case UInt64ArrayVal(_) => UInt64Array
    case Real32ArrayVal(_) => Real32Array
    case Real64ArrayVal(_) => Real64Array
    case StdSizeTVal(_) => StdSizeT
    case StringVal(_) => String
  }

  /** The position of an enumerator in the declaration, i.e. its underlying
    * integer value. */
  function Ordinal(id: TypeId): (k: nat)
    ensures k < |AllTypeIds| && AllTypeIds[k] == id
  {
    match id
    case Int32Id => 0
    case UInt32Id => 1
    case Int64Id => 2
    case UInt64Id => 3
    case Real32Id => 4
    case Real64Id => 5
    case Int32ArrayId => 6
    case UInt32ArrayId => 7
    case Int64ArrayId => 8
    case UInt64ArrayId => 9
    case Real32ArrayId => 10
    case Real64ArrayId => 11
    case StdSizeTId => 12
    case StringId => 13
  }

  /** The registered type an enumerator stands for. */
  function TypeOfId(id: TypeId): RtType {
    match id
    case Int32Id => Int32
    case UInt32Id => UInt32
    case Int64Id => Int64
    case UInt64Id => UInt64
    case Real32Id => Real32
    case Real64Id => Real64
    case Int32ArrayId => Int32Array
    case UInt32ArrayId => UInt32Array
    case Int64ArrayId => Int64Array
    case UInt64ArrayId => UInt64Array
    case Real32ArrayId => Real32Array
    case Real64ArrayId => Real64Array
    case StdSizeTId => StdSizeT
    case StringId => String
  }

  /** The argument the switch of `ApplyTypeLambda` constructs for each case. */
  function ValueFor(id: TypeId): (v: TypedValue)
    ensures TypeOf(v) == TypeOfId(id)
    ensures v.StringVal? ==> v.s == ""
    ensures (v.Real32Val? || v.Real64Val?) ==> v.x == 1.0
    ensures (v.Int32Val? || v.UInt32Val? || v.Int64Val? || v.UInt64Val? || v.StdSizeTVal?) ==> v.n == 1
    ensures v.Int32ArrayVal? || v.UInt32ArrayVal? || v.Int64ArrayVal? || v.UInt64ArrayVal? ==> v.len == 1
    ensures v.Real32ArrayVal? || v.Real64ArrayVal? ==> v.len == 1
  {
    match id
    case Int32Id => Int32Val(1)
    case UInt32Id => UInt32Val(1)
    case Int64Id => Int64Val(1)
    case UInt64Id => UInt64Val(1)
    case Real32Id => Real32Val(1.0)
    case Real64Id => Real64Val(1.0)
    case Int32ArrayId => Int32ArrayVal(1)
    case UInt32ArrayId => UInt32ArrayVal(1)
    case Int64ArrayId => Int64ArrayVal(1)
    case UInt64ArrayId => UInt64ArrayVal(1)
    case Real32ArrayId => Real32ArrayVal(1)
    case Real64ArrayId => Real64ArrayVal(1)
    case StdSizeTId => StdSizeTVal(1)
    case StringId => StringVal("")
  }

  /** `ApplyTypeLambda` on an enumerator value given by its underlying
    * integer: the fourteen valid values call the lambda with a value of the
    * matching type; any other value reaches the `default` branch, whose
    * `assert( false )` is `None` here. */
  function ApplyTypeLambda<R>(ordinal: int, lambda: TypedValue -> R): (r: Option<R>)
    ensures r.Some? <==> 0 <= ordinal < 14
    ensures 0 <= ordinal < 14 ==> r == Some(lambda(ValueFor(AllTypeIds[ordinal])))
  {
    if 0 <= ordinal < |AllTypeIds| then Some(lambda(ValueFor(AllTypeIds[ordinal]))) else None
  }

  /** Every registered type has a name, and two registered types share a
    * name exactly when they are the same `std::type_index`: without the
    * alias the fourteen names are distinct, with it `std_size_t` and
    * `uint64` are both "uint64". */
  lemma TypeNamesInjective(s: RtType, t: RtType, sizeIsUInt64: bool)
    requires !s.Unregistered? && !t.Unregistered?
    ensures TypeNames(s, sizeIsUInt64).Some? && TypeNames(t, sizeIsUInt64).Some?
    ensures TypeNames(s, sizeIsUInt64) == TypeNames(t, sizeIsUInt64) <==> Canonical(s, sizeIsUInt64) == Canonical(t, sizeIsUInt64)
    ensures !sizeIsUInt64 ==> (TypeNames(s, sizeIsUInt64) == TypeNames(t, sizeIsUInt64) <==> s == t)
    ensures sizeIsUInt64 ==> TypeNames(StdSizeT, sizeIsUInt64) == TypeNames(UInt64, sizeIsUInt64) == Some("uint64")
  {
  }

  /** There are exactly fourteen enumerators, each listed once, and each
    * stands for a distinct registered type. */
  lemma TypeIdsAreTheRegisteredTypes(sizeIsUInt64: bool)
    ensures |AllTypeIds| == 14
    ensures forall id: TypeId :: id in AllTypeIds
    ensures forall i, j :: 0 <= i < j < |AllTypeIds| ==> AllTypeIds[i] != AllTypeIds[j]
    ensures forall i :: 0 <= i < |AllTypeIds| ==> TypeNames(TypeOfId(AllTypeIds[i]), sizeIsUInt64).Some?
  {
    forall id: TypeId ensures id in AllTypeIds {
      var k := Ordinal(id);
    }
  }

  /** The lambda sees a value whose type is the one the enumerator names. */
  lemma ApplyTypeLambdaMatchesType(ordinal: int)
    requires 0 <= ordinal < 14
    ensures ApplyTypeLambda(ordinal, TypeOf) == Some(TypeOfId(AllTypeIds[ordinal]))
  {
  }
}
