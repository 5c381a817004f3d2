/**
 * An abstract universe of .NET types: what the engine reads from System.Type.
 * A type is identified by its (full) name together with its generic arguments;
 * a generic type definition such as Nullable<> has no arguments and is flagged
 * as a definition.  Base types and interfaces are part of the value, so every
 * fact the engine asks of reflection is a function of the type value.
 */
module Types {
  import opened Wrappers

  /** The boolean facts of System.Type that the engine consults. */
  datatype TypeFlags = TypeFlags(
    isValueType: bool,
    isInterface: bool,
    isEnum: bool,
    isPrimitive: bool,
    isClass: bool,
    isAbstract: bool,
    hasDefaultConstructor: bool)

  /**
   * A public property, as Type.GetProperties lists it: its name, its type,
   * whether it is an indexer and whether it is static.
   */
  datatype Property = Property(name: string, ty: Ty, isIndexer: bool, isStatic: bool)

  datatype Ty = Ty(
    name: string,
    args: seq<Ty>,
    isGenericDefinition: bool,
    flags: TypeFlags,
    baseType: Option<Ty>,
    interfaces: seq<Ty>,
    properties: seq<Property>)
  {
    /** Type.IsGenericType: a constructed generic type or an open definition. */
    predicate IsGenericType() {
      |args| > 0 || isGenericDefinition
    }
  }

  const ClassFlags := TypeFlags(false, false, false, false, true, false, true)
  const StructFlags := TypeFlags(true, false, false, false, false, false, true)
  const PrimitiveFlags := TypeFlags(true, false, false, true, false, false, true)
  const InterfaceFlags := TypeFlags(false, true, false, false, false, true, false)

  const ObjectType := Ty("System.Object", [], false, ClassFlags, None, [], [])
  const ValueTypeType := Ty("System.ValueType", [], false, ClassFlags.(isAbstract := true), Some(ObjectType), [], [])
  const EnumType := Ty("System.Enum", [], false, ClassFlags.(isAbstract := true), Some(ValueTypeType), [], [])

  /** A primitive struct such as System.Int32. */
  function Primitive(name: string): Ty {
    Ty(name, [], false, PrimitiveFlags, Some(ValueTypeType), [], [])
  }

  /** A non-primitive struct such as System.DateTime. */
  function Struct(name: string): Ty {
    Ty(name, [], false, StructFlags, Some(ValueTypeType), [], [])
  }

  /** An enumeration type. */
  function Enumeration(name: string): Ty {
    Ty(name, [], false, StructFlags.(isEnum := true), Some(EnumType), [], [])
  }

  const BoolType := Primitive("System.Boolean")
  const CharType := Primitive("System.Char")
  const IntType := Primitive("System.Int32")
  const LongType := Primitive("System.Int64")
  /**
   * System.DateTime, with its static property Now. A type value cannot hold
   * itself, so the type of Now is a DateTime value without properties, and
   * the instance properties (Date, Day, Ticks, ...) are left out.
   */
  const DateTimeType := Struct("System.DateTime").(properties := [Property("Now", Struct("System.DateTime"), false, true)])
  const DecimalType := Struct("System.Decimal")

  const NullableName := "System.Nullable`1"
  const IEnumerableName := "System.Collections.Generic.IEnumerable`1"
  const ICollectionName := "System.Collections.Generic.ICollection`1"
  const ListName := "System.Collections.Generic.List`1"
  const IRangeFilterName := "AutoFilter.Interfaces.IRangeFilter`1"
  const RangeFilterName := "AutoFilter.RangeFilter`1"

  /** Nullable<>, the open definition. */
  const NullableDefinition := Ty(NullableName, [], true, StructFlags, Some(ValueTypeType), [], [])

  /** Nullable<T> for a value type T. */
  function NullableOf(t: Ty): Ty {
    Ty(NullableName, [t], false, StructFlags, Some(ValueTypeType), [], [])
  }

  const IEnumerableDefinition := Ty(IEnumerableName, [], true, InterfaceFlags, None, [], [])

  function IEnumerableOf(t: Ty): Ty {
    Ty(IEnumerableName, [t], false, InterfaceFlags, None, [], [])
  }

  const ICollectionDefinition := Ty(ICollectionName, [], true, InterfaceFlags, None, [IEnumerableDefinition], [])

  function ICollectionOf(t: Ty): Ty {
    Ty(ICollectionName, [t], false, InterfaceFlags, None, [IEnumerableOf(t)], [])
  }

  function ListOf(t: Ty): Ty {
    Ty(ListName, [t], false, ClassFlags, Some(ObjectType), [ICollectionOf(t), IEnumerableOf(t)], [])
  }

  /** System.String: a class that is also IEnumerable<char>. */
  const StringType := Ty("System.String", [], false, ClassFlags.(hasDefaultConstructor := false), Some(ObjectType), [IEnumerableOf(CharType)], [])

  const IRangeFilterDefinition := Ty(IRangeFilterName, [], true, InterfaceFlags, None, [], [])

  function IRangeFilterOf(t: Ty): Ty {
    Ty(IRangeFilterName, [t], false, InterfaceFlags, None, [], RangeProperties(t))
  }

  /** RangeFilter<T>: the concrete class implementing IRangeFilter<T>. */
  function RangeFilterOf(t: Ty): Ty {
    Ty(RangeFilterName, [t], false, ClassFlags, Some(ObjectType), [IRangeFilterOf(t)], RangeProperties(t))
  }

  const MinValueName := "MinValue"
  const MaxValueName := "MaxValue"
  const ExactValueName := "ExactValue"

  /** The three optional bounds of a range filter, each of type T?. */
  function RangeProperties(t: Ty): seq<Property> {
    [Property(MinValueName, NullableOf(t), false, false),
     Property(MaxValueName, NullableOf(t), false, false),
     Property(ExactValueName, NullableOf(t), false, false)]
  }
}
