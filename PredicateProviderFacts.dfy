/**
 * The predicate provider on concrete types: the behaviour the provider's own
 * test suite pins down, and three type combinations where its
 * CanBuildPredicateExpression promises a predicate that its
 * BuildPredicateExpression then cannot build.
 */
module PredicateProviderFacts {
  import opened Wrappers
  import opened Types
  import opened TypeUtils
  import opened Expressions
  import opened PredicateProvider

  const UIntType := Primitive("System.UInt32")
  const ULongType := Primitive("System.UInt64")
  /** ComparisonType itself, the enum the tests compare. */
  const ComparisonEnumType := Enumeration("AutoFilter.ComparisonType")

  /** Off the range case, a well-formed build that CanBuild accepts succeeds and means Meaning. */
  lemma BuildsAndMeans(tf: Ty, te: Ty, c: ComparisonType, n: nat)
    requires RangeDefinition(tf).None? && CanBuild(tf, te, c) && !c.Undeclared?
    requires NullableArgIsValue(tf) && NullableArgIsValue(EntityOperand(te)) && ReferenceCollection(te)
    requires GetItemTypeIfICollection(tf).Some? ==> AcceptsArgument(GetItemTypeIfICollection(tf).value, EntityOperand(te))
    ensures var r := BuildPredicateExpression(tf, te, c, n);
      r.Success? && forall a, b :: Apply2(r.value.e, a, b) == Meaning(tf, te, c, a, b)
  {
    BuildOffRangeOutcome(tf, te, c, n);
    BuildMeaning(tf, te, c, n);
  }

  /** Two single values: the build compares them. */
  lemma SingleValueBuild(tf: Ty, te: Ty, c: ComparisonType, n: nat) returns (p: Expr)
    requires RangeDefinition(tf).None? && GetItemTypeIfICollection(tf).None? && GetItemTypeIfIEnumerable(te).None?
    requires CanBuild(tf, te, c) && !c.Undeclared? && NullableArgIsValue(tf) && NullableArgIsValue(te)
    ensures var r := BuildPredicateExpression(tf, te, c, n);
      r.Success? && r.value.e == p
    ensures forall a, b :: Apply2(p, a, b) == Compare(c, a, b)
  {
    BuildsAndMeans(tf, te, c, n);
    p := BuildPredicateExpression(tf, te, c, n).value.e;
    forall a, b ensures Apply2(p, a, b) == Compare(c, a, b) {
      SingleValueMeaningIs(tf, te, c, a, b);
    }
  }

  lemma SingleValueMeaningIs(tf: Ty, te: Ty, c: ComparisonType, a: Value, b: Value)
    requires RangeDefinition(tf).None? && GetItemTypeIfICollection(tf).None? && GetItemTypeIfIEnumerable(te).None?
    ensures Meaning(tf, te, c, a, b) == Compare(c, a, b)
  {
    assert Meaning(tf, te, c, a, b) == ItemMeaning(tf, te, c, a, b);
  }

  /** A collection filter and a single entity value: the build tests membership. */
  lemma ContainsBuild(tf: Ty, te: Ty, n: nat) returns (p: Expr)
    requires RangeDefinition(tf).None? && GetItemTypeIfICollection(tf) == Some(te) && GetItemTypeIfIEnumerable(te).None?
    requires CanBuild(tf, te, ComparisonType.Equal) && NullableArgIsValue(tf) && NullableArgIsValue(te)
    ensures var r := BuildPredicateExpression(tf, te, ComparisonType.Equal, n);
      r.Success? && r.value.e == p
    ensures forall a, b :: Apply2(p, a, b) == ContainsValue(a, b)
  {
    BuildsAndMeans(tf, te, ComparisonType.Equal, n);
    p := BuildPredicateExpression(tf, te, ComparisonType.Equal, n).value.e;
    forall a, b ensures Apply2(p, a, b) == ContainsValue(a, b) {
      ContainsMeaningIs(tf, te, a, b);
    }
  }

  lemma ContainsMeaningIs(tf: Ty, te: Ty, a: Value, b: Value)
    requires RangeDefinition(tf).None? && GetItemTypeIfICollection(tf).Some? && GetItemTypeIfIEnumerable(te).None?
    ensures Meaning(tf, te, ComparisonType.Equal, a, b) == ContainsValue(a, b)
  {
    assert Meaning(tf, te, ComparisonType.Equal, a, b) == ItemMeaning(tf, te, ComparisonType.Equal, a, b);
  }

  /** A single filter value and a reference-type collection entity: the build compares with each item. */
  lemma AnyBuild(tf: Ty, te: Ty, item: Ty, c: ComparisonType, n: nat) returns (p: Expr)
    requires RangeDefinition(tf).None? && GetItemTypeIfICollection(tf).None? && GetItemTypeIfIEnumerable(te) == Some(item)
    requires GetItemTypeIfIEnumerable(item).None? && !te.flags.isValueType
    requires CanBuild(tf, te, c) && !c.Undeclared? && NullableArgIsValue(tf) && NullableArgIsValue(item)
    ensures var r := BuildPredicateExpression(tf, te, c, n);
      r.Success? && r.value.e == p
    ensures forall a, l :: Apply2(p, a, l) == AnyCompare(c, a, l)
  {
    BuildsAndMeans(tf, te, c, n);
    p := BuildPredicateExpression(tf, te, c, n).value.e;
    forall a, l ensures Apply2(p, a, l) == AnyCompare(c, a, l) {
      AnyCompareMeaningIs(tf, te, item, c, a, l);
    }
  }

  lemma AnyCompareMeaningIs(tf: Ty, te: Ty, item: Ty, c: ComparisonType, a: Value, l: Value)
    requires RangeDefinition(tf).None? && GetItemTypeIfICollection(tf).None? && GetItemTypeIfIEnumerable(te) == Some(item)
    ensures Meaning(tf, te, c, a, l) == AnyCompare(c, a, l)
  {
    if l.Items? {
      EnumerableMeaning(tf, te, item, c, a, l);
      SomeItemCompares(tf, item, c, a, l.items);
    }
  }

  /** On a collection entity, Meaning asks whether some item's meaning holds. */
  lemma EnumerableMeaning(tf: Ty, te: Ty, item: Ty, c: ComparisonType, a: Value, l: Value)
    requires GetItemTypeIfIEnumerable(te) == Some(item) && l.Items?
    ensures Meaning(tf, te, c, a, l) == Bool(exists i | 0 <= i < |l.items| :: Truthy(ItemMeaning(tf, item, c, a, l.items[i])))
  {
    assert EntityOperand(te) == item;
  }

  lemma SomeItemCompares(tf: Ty, item: Ty, c: ComparisonType, a: Value, items: seq<Value>)
    requires RangeDefinition(tf).None? && GetItemTypeIfICollection(tf).None?
    ensures (exists i | 0 <= i < |items| :: Truthy(ItemMeaning(tf, item, c, a, items[i])))
        == (exists i | 0 <= i < |items| :: Truthy(Compare(c, a, items[i])))
  {
    forall i | 0 <= i < |items| ensures ItemMeaning(tf, item, c, a, items[i]) == Compare(c, a, items[i]) {
      SingleItemMeaning(tf, item, c, a, items[i]);
    }
  }

  lemma SingleItemMeaning(tf: Ty, te: Ty, c: ComparisonType, a: Value, x: Value)
    requires RangeDefinition(tf).None? && GetItemTypeIfICollection(tf).None?
    ensures ItemMeaning(tf, te, c, a, x) == Compare(c, a, x)
  {
  }

  /** Some item of a collection value compares with a. */
  function AnyCompare(c: ComparisonType, a: Value, l: Value): Value {
    if l.Items? then Bool(exists i | 0 <= i < |l.items| :: Truthy(Compare(c, a, l.items[i]))) else Null
  }

  /** Some item of a collection value is in the collection a. */
  function AnyContained(a: Value, l: Value): Value {
    if l.Items? then Bool(exists i | 0 <= i < |l.items| :: Truthy(ContainsValue(a, l.items[i]))) else Null
  }

  /** Two collections, the entity's a reference type: the build looks for an entity item the filter contains. */
  lemma CommonItemBuild(tf: Ty, te: Ty, item: Ty, n: nat) returns (p: Expr)
    requires RangeDefinition(tf).None? && GetItemTypeIfICollection(tf) == Some(item) && GetItemTypeIfIEnumerable(te) == Some(item)
    requires !te.flags.isValueType
    requires CanBuild(tf, te, ComparisonType.Equal) && NullableArgIsValue(tf) && NullableArgIsValue(item)
    ensures var r := BuildPredicateExpression(tf, te, ComparisonType.Equal, n);
      r.Success? && r.value.e == p
    ensures forall a, l :: Apply2(p, a, l) == AnyContained(a, l)
  {
    BuildsAndMeans(tf, te, ComparisonType.Equal, n);
    p := BuildPredicateExpression(tf, te, ComparisonType.Equal, n).value.e;
    forall a, l ensures Apply2(p, a, l) == AnyContained(a, l) {
      AnyContainedMeaningIs(tf, te, item, a, l);
    }
  }

  lemma AnyContainedMeaningIs(tf: Ty, te: Ty, item: Ty, a: Value, l: Value)
    requires RangeDefinition(tf).None? && GetItemTypeIfICollection(tf) == Some(item) && GetItemTypeIfIEnumerable(te) == Some(item)
    ensures Meaning(tf, te, ComparisonType.Equal, a, l) == AnyContained(a, l)
  {
    assert EntityOperand(te) == item;
    if l.Items? {
      forall i | 0 <= i < |l.items| ensures ItemMeaning(tf, item, ComparisonType.Equal, a, l.items[i]) == ContainsValue(a, l.items[i]) {
      }
    }
  }

  // ---------------------------------------------------------------------------
  // CanBuildPredicateExpression.

  /** Same primitive, decimal and DateTime types compare by every comparison; bool, string and enums only for equality. */
  lemma CanBuildOnSingleValues()
    ensures CanBuild(BoolType, BoolType, ComparisonType.Equal)
    ensures CanBuild(LongType, LongType, ComparisonType.GreaterThan)
    ensures CanBuild(UIntType, UIntType, ComparisonType.GreaterThanOrEqual)
    ensures CanBuild(IntType, IntType, ComparisonType.LessThan)
    ensures CanBuild(ULongType, ULongType, ComparisonType.LessThanOrEqual)
    ensures forall c: ComparisonType | !c.Undeclared? :: CanBuild(DecimalType, DecimalType, c) && CanBuild(DateTimeType, DateTimeType, c)
    ensures CanBuild(StringType, StringType, ComparisonType.Equal)
    ensures CanBuild(ComparisonEnumType, ComparisonEnumType, ComparisonType.Equal)
    ensures forall c: ComparisonType | !c.Equal? ::
      !CanBuild(BoolType, BoolType, c) && !CanBuild(StringType, StringType, c) && !CanBuild(ComparisonEnumType, ComparisonEnumType, c)
  {
    SimpleTypeFacts(BoolType);
    SimpleTypeFacts(LongType);
    SimpleTypeFacts(UIntType);
    SimpleTypeFacts(IntType);
    SimpleTypeFacts(ULongType);
    SimpleTypeFacts(DecimalType);
    SimpleTypeFacts(DateTimeType);
    SimpleTypeFacts(ComparisonEnumType);
    ItemTypesOfWellKnownTypes(CharType);
    StringTypeFacts();
  }

  /** Nullable<> on either side, collections on either side, and range filters. */
  lemma CanBuildOnLiftedTypes()
    ensures CanBuild(NullableOf(BoolType), BoolType, ComparisonType.Equal)
    ensures CanBuild(IntType, NullableOf(IntType), ComparisonType.LessThanOrEqual)
    ensures CanBuild(NullableOf(DateTimeType), NullableOf(DateTimeType), ComparisonType.GreaterThan)
    ensures CanBuild(ICollectionOf(BoolType), BoolType, ComparisonType.Equal)
    ensures CanBuild(IntType, ICollectionOf(IntType), ComparisonType.LessThanOrEqual)
    ensures CanBuild(ICollectionOf(LongType), ICollectionOf(LongType), ComparisonType.Equal)
    ensures !CanBuild(ICollectionOf(BoolType), BoolType, ComparisonType.GreaterThan)
    ensures !CanBuild(ICollectionOf(LongType), ICollectionOf(LongType), ComparisonType.LessThanOrEqual)
    ensures CanBuild(RangeFilterOf(DateTimeType), DateTimeType, ComparisonType.Equal)
    ensures !CanBuild(RangeFilterOf(DateTimeType), StringType, ComparisonType.Equal)
  {
    SimpleTypeFacts(BoolType);
    SimpleTypeFacts(IntType);
    SimpleTypeFacts(LongType);
    SimpleTypeFacts(DateTimeType);
    NullableOfIsNullable(BoolType);
    NullableOfIsNullable(IntType);
    NullableOfIsNullable(DateTimeType);
    NullableTypeFacts(IntType);
    NullableTypeFacts(DateTimeType);
    NullableIsNotRangeOrCollection(BoolType);
    NullableIsNotRangeOrCollection(DateTimeType);
    ItemTypesOfWellKnownTypes(BoolType);
    ItemTypesOfWellKnownTypes(IntType);
    ItemTypesOfWellKnownTypes(LongType);
    ItemTypesOfWellKnownTypes(CharType);
    CollectionTypeFacts(BoolType);
    CollectionTypeFacts(LongType);
    RangeFilterTypeFacts(DateTimeType);
    StringTypeFacts();
  }

  // ---------------------------------------------------------------------------
  // BuildPredicateExpression on single values.

  /** The ordered single-value types of the tests: numeric primitives, decimal and DateTime. */
  predicate IsOrderedType(t: Ty) {
    IsSimpleType(t) && IsDirectlyComparable(t) && !IsEqualityOnly(t) && t.flags.isValueType
  }

  /** What the examples need of string: a single value that compares directly and is not nullable. */
  predicate IsPlainComparable(s: Ty) {
    GetItemTypeIfIEnumerable(s).None? && GetItemTypeIfICollection(s).None? && RangeDefinition(s).None?
    && !IsInheritsFrom(s, NullableDefinition) && IsDirectlyComparable(s)
  }

  lemma StringIsPlainComparable()
    ensures IsPlainComparable(StringType)
  {
    ItemTypesOfWellKnownTypes(CharType);
    StringTypeFacts();
  }

  /**
   * The outcomes the tests expect of the compiled predicates, for any
   * predicate with the meaning SingleValueBuild, ContainsBuild, AnyBuild and
   * CommonItemBuild prove of the build.
   */
  lemma OrderingExamples(gt: Expr, lte: Expr)
    requires forall a, b :: Apply2(gt, a, b) == Compare(ComparisonType.GreaterThan, a, b)
    requires forall a, b :: Apply2(lte, a, b) == Compare(ComparisonType.LessThanOrEqual, a, b)
    ensures Apply2(gt, Num(1234), Num(123)) == Bool(true)
    ensures Apply2(gt, Num(123), Num(123)) == Bool(false) && Apply2(gt, Num(123), Num(1234)) == Bool(false)
    ensures Apply2(lte, Num(1234), Num(123)) == Bool(false)
    ensures Apply2(lte, Num(123), Num(123)) == Bool(true) && Apply2(lte, Num(123), Num(1234)) == Bool(true)
  {
  }

  /** String equality is exact: no case folding. */
  lemma StringEqualityExamples(eq: Expr)
    requires forall a, b :: Apply2(eq, a, b) == Compare(ComparisonType.Equal, a, b)
    ensures Apply2(eq, Str("Doron"), Str("Doron")) == Bool(true)
    ensures Apply2(eq, Str("doron"), Str("doron5")) == Bool(false)
    ensures Apply2(eq, Str("doron"), Str("DORON")) == Bool(false)
  {
    assert |"doron"| != |"doron5"|;
    assert "doron"[0] != "DORON"[0];
  }

  /** null equals only null, and no ordering holds with null. */
  lemma NullableExamples(eq: Expr, gt: Expr)
    requires forall a, b :: Apply2(eq, a, b) == Compare(ComparisonType.Equal, a, b)
    requires forall a, b :: Apply2(gt, a, b) == Compare(ComparisonType.GreaterThan, a, b)
    ensures Apply2(eq, Bool(false), Bool(false)) == Bool(true) && Apply2(eq, Null, Bool(false)) == Bool(false)
    ensures Apply2(eq, Null, Null) == Bool(true) && Apply2(eq, Null, Num(123)) == Bool(false)
    ensures Apply2(gt, Num(1234), Num(123)) == Bool(true) && Apply2(gt, Num(123), Null) == Bool(false)
  {
  }

  /** A collection filter holds when it contains the entity value. */
  lemma ContainsExamples(contains: Expr)
    requires forall a, b :: Apply2(contains, a, b) == ContainsValue(a, b)
    ensures Apply2(contains, Items([Str("Doron1"), Str("Doron33")]), Str("Doron33")) == Bool(true)
    ensures Apply2(contains, Items([]), Str("Doron")) == Bool(false)
    ensures Apply2(contains, Items([Str("Doron1")]), Str("Doron")) == Bool(false)
  {
    assert [Str("Doron1"), Str("Doron33")][1] == Str("Doron33");
    assert |"Doron1"| != |"Doron"|;
  }

  /** A collection entity holds when some item satisfies the comparison. */
  lemma AnyExamples(lt: Expr)
    requires forall a, l :: Apply2(lt, a, l) == AnyCompare(ComparisonType.LessThan, a, l)
    ensures Apply2(lt, Num(0), Items([Num(1)])) == Bool(true)
    ensures Apply2(lt, Num(0), Items([Num(-1), Num(3), Num(0)])) == Bool(true)
    ensures Apply2(lt, Num(0), Items([])) == Bool(false)
    ensures Apply2(lt, Num(0), Items([Num(-1), Num(-5), Num(0)])) == Bool(false)
  {
    assert [Num(1)][0] == Num(1);
    assert [Num(-1), Num(3), Num(0)][1] == Num(3);
  }

  /** Two collections match when they have an item in common. */
  lemma CommonItemExamples(common: Expr)
    requires forall a, l :: Apply2(common, a, l) == AnyContained(a, l)
    ensures Apply2(common, Items([Str("Doron")]), Items([Str("Doron")])) == Bool(true)
    ensures Apply2(common, Items([]), Items([])) == Bool(false)
    ensures Apply2(common, Items([Str("Doron1")]), Items([Str("Yaacobi")])) == Bool(false)
  {
    assert [Str("Doron")][0] == Str("Doron");
    assert "Doron1"[0] != "Yaacobi"[0];
  }

  /** The test types meet the premises of the build lemmas. */
  lemma TestTypesArePlain()
    ensures IsOrderedType(IntType) && IsOrderedType(LongType) && IsOrderedType(UIntType) && IsOrderedType(ULongType)
    ensures IsOrderedType(DecimalType) && IsOrderedType(DateTimeType)
    ensures IsPlainComparable(StringType)
  {
    StringIsPlainComparable();
  }

  /** Orderings on bool, string and enums are refused. */
  lemma RefusedSingleValueBuilds(n: nat)
    ensures BuildPredicateExpression(BoolType, BoolType, ComparisonType.GreaterThan, n) == Failure(InvalidOperation)
    ensures BuildPredicateExpression(StringType, StringType, ComparisonType.GreaterThanOrEqual, n) == Failure(InvalidOperation)
    ensures BuildPredicateExpression(ComparisonEnumType, ComparisonEnumType, ComparisonType.LessThanOrEqual, n) == Failure(InvalidOperation)
  {
    CanBuildOnSingleValues();
  }

  /** Any comparison but Equal on a collection filter is refused. */
  lemma RefusedCollectionBuild(n: nat)
    ensures BuildPredicateExpression(ICollectionOf(BoolType), BoolType, ComparisonType.GreaterThan, n) == Failure(InvalidOperation)
  {
    ItemTypesOfWellKnownTypes(BoolType);
  }
}
