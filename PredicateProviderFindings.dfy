/**
 * Four type combinations that CanBuildPredicateExpression accepts but
 * BuildPredicateExpression cannot build, each stated in general, shown on
 * concrete types, and set against the corrected provider; and the meaning of
 * a range filter in terms of its three bounds.
 */
module PredicateProviderFindings {
  import opened Wrappers
  import opened Types
  import opened TypeUtils
  import opened Expressions
  import opened RangeFilter
  import opened PredicateProvider

  // ---------------------------------------------------------------------------
  // A range filter over a type without an ordering.

  /**
   * CanBuild looks only at the requested comparison, but the range predicate
   * always compares the Max and Min bounds with >= and <=: where the bound
   * type has no ordering, the ExactValue comparison is built and the MaxValue
   * one is refused, so the whole build throws InvalidOperationException.
   */
  lemma RangeOverUnorderedTypeIsRefused(tf: Ty, te: Ty, c: ComparisonType, n: nat)
    requires RangeDefinition(tf).Some? && GetItemTypeIfIEnumerable(te).None?
    requires RangeArgument(tf).flags.isValueType
    requires CanBuild(tf, te, c)
    requires CanBuild(NullableOf(RangeArgument(tf)), te, ComparisonType.Equal)
    requires !CanBuild(NullableOf(RangeArgument(tf)), te, ComparisonType.GreaterThanOrEqual)
    ensures BuildPredicateExpression(tf, te, c, n) == Failure(InvalidOperation)
    ensures !CorrectedCanBuild(tf, te, c)
  {
    var t := RangeArgument(tf);
    var fp := Parameter(n, tf, "");
    var ep := Parameter(n + 1, te, "");
    NullableComparisonOutcome(fp, ep, ExactValueName, t, ComparisonType.Equal, n + 2);
    var exact := CreateNullableComparisonPredicate(fp, ep, ExactValueName, t, ComparisonType.Equal, n + 2);
    var max := CreateNullableComparisonPredicate(fp, ep, MaxValueName, t, ComparisonType.GreaterThanOrEqual, exact.value.next);
    assert max == Failure(InvalidOperation);
    assert BuildRangePredicateExpression(tf, te, RangeDefinition(tf).value, n) == Failure(InvalidOperation);
  }

  /** RangeFilter<bool> against a bool with Equal: accepted, then refused. */
  lemma RangeOfBoolIsRefused(n: nat)
    ensures CanBuild(RangeFilterOf(BoolType), BoolType, ComparisonType.Equal)
    ensures BuildPredicateExpression(RangeFilterOf(BoolType), BoolType, ComparisonType.Equal, n) == Failure(InvalidOperation)
    ensures !CorrectedCanBuild(RangeFilterOf(BoolType), BoolType, ComparisonType.Equal)
  {
    RangeFilterTypeFacts(BoolType);
    SimpleTypeFacts(BoolType);
    NullableOfIsNullable(BoolType);
    NullableIsNotRangeOrCollection(BoolType);
    NullableTypeFacts(BoolType);
    assert RangeArgument(RangeFilterOf(BoolType)) == BoolType;
    RangeOverUnorderedTypeIsRefused(RangeFilterOf(BoolType), BoolType, ComparisonType.Equal, n);
  }

  // ---------------------------------------------------------------------------
  // A range filter against a collection entity.

  /**
   * The range predicate is built over the entity type itself, so when the
   * entity is a collection its second parameter is the collection, and
   * wrapping it in Any, which expects a predicate on the items, throws an
   * ArgumentException.  The corrected build compares the range with each item.
   */
  lemma RangeAgainstCollectionFails(tf: Ty, te: Ty, item: Ty, c: ComparisonType, n: nat)
    requires RangeDefinition(tf).Some? && GetItemTypeIfIEnumerable(te) == Some(item) && item != te
    requires CanBuild(tf, te, c) && CanBuild(NullableOf(RangeArgument(tf)), te, ComparisonType.GreaterThanOrEqual)
    requires GetItemTypeIfIEnumerable(item).None? && WellFormedTypes(tf, te, c) && !te.flags.isValueType
    ensures var r := BuildPredicateExpression(tf, te, c, n);
      r.Failure? && r.error.InvalidArgument?
    ensures var r := CorrectedBuild(tf, te, c, n);
      r.Success? && forall a, b :: Apply2(r.value.e, a, b) == Meaning(tf, te, c, a, b)
  {
    assert CorrectedCanBuild(tf, te, c);
    RangeAgainstCollectionAsWritten(tf, te, item, c, n);
    CorrectedBuildOutcome(tf, te, c, n);
    CorrectedBuildMeaning(tf, te, c, n);
  }

  lemma RangeAgainstCollectionAsWritten(tf: Ty, te: Ty, item: Ty, c: ComparisonType, n: nat)
    requires RangeDefinition(tf).Some? && GetItemTypeIfIEnumerable(te) == Some(item) && item != te
    requires CanBuild(tf, te, c) && CanBuild(NullableOf(RangeArgument(tf)), te, ComparisonType.GreaterThanOrEqual)
    requires RangeArgument(tf).flags.isValueType
    ensures var r := BuildPredicateExpression(tf, te, c, n);
      r.Failure? && r.error.InvalidArgument?
  {
    var range := RangeDefinition(tf).value;
    RangeOutcome(tf, te, range, n);
    var pred := BuildRangePredicateExpression(tf, te, range, n);
    if pred.Success? {
      assert pred.value.e.params[1].ty == te;
      assert !IsEnumerableOf(te, te);
    }
  }

  /** RangeFilter<int> against a List<int> with Equal: accepted, then an ArgumentException. */
  lemma RangeAgainstListFails(n: nat)
    ensures CanBuild(RangeFilterOf(IntType), ListOf(IntType), ComparisonType.Equal)
    ensures var r := BuildPredicateExpression(RangeFilterOf(IntType), ListOf(IntType), ComparisonType.Equal, n);
      r.Failure? && r.error.InvalidArgument?
    ensures CorrectedBuild(RangeFilterOf(IntType), ListOf(IntType), ComparisonType.Equal, n).Success?
  {
    var tf, te := RangeFilterOf(IntType), ListOf(IntType);
    RangeFilterTypeFacts(IntType);
    SimpleTypeFacts(IntType);
    ItemTypesOfWellKnownTypes(IntType);
    NullableOfIsNullable(IntType);
    NullableIsNotRangeOrCollection(IntType);
    assert RangeArgument(tf) == IntType;
    assert ListOf(IntType) != IntType && GetItemTypeIfIEnumerable(IntType).None?;
    assert CanBuild(NullableOf(IntType), te, ComparisonType.GreaterThanOrEqual);
    assert WellFormedTypes(tf, te, ComparisonType.Equal);
    RangeAgainstCollectionFails(tf, te, IntType, ComparisonType.Equal, n);
  }

  // ---------------------------------------------------------------------------
  // A collection of nullables against a plain value.

  /**
   * CanBuild strips Nullable<> from both sides, but ICollection<T>.Contains
   * takes a T exactly: where the entity type is not one Contains accepts, the
   * build throws an ArgumentException.  The corrected CanBuild says no.
   */
  lemma UnacceptedContainsFails(tf: Ty, te: Ty, filterItem: Ty, n: nat)
    requires RangeDefinition(tf).None? && GetItemTypeIfICollection(tf) == Some(filterItem)
    requires GetItemTypeIfIEnumerable(te).None? && !AcceptsArgument(filterItem, te)
    requires CanBuild(tf, te, ComparisonType.Equal)
    ensures var r := BuildPredicateExpression(tf, te, ComparisonType.Equal, n);
      r.Failure? && r.error.InvalidArgument?
    ensures !CorrectedCanBuild(tf, te, ComparisonType.Equal)
    ensures CorrectedBuild(tf, te, ComparisonType.Equal, n) == Failure(InvalidOperation)
  {
  }

  /** ICollection<int?> against an int with Equal: accepted, then an ArgumentException. */
  lemma NullableItemCollectionFails(n: nat)
    ensures CanBuild(ICollectionOf(NullableOf(IntType)), IntType, ComparisonType.Equal)
    ensures var r := BuildPredicateExpression(ICollectionOf(NullableOf(IntType)), IntType, ComparisonType.Equal, n);
      r.Failure? && r.error.InvalidArgument?
    ensures !CorrectedCanBuild(ICollectionOf(NullableOf(IntType)), IntType, ComparisonType.Equal)
  {
    var tf := ICollectionOf(NullableOf(IntType));
    CollectionTypeFacts(NullableOf(IntType));
    ItemTypesOfWellKnownTypes(NullableOf(IntType));
    SimpleTypeFacts(IntType);
    NullableOfIsNullable(IntType);
    assert NullableOf(IntType) != IntType;
    UnacceptedContainsFails(tf, IntType, NullableOf(IntType), n);
  }

  // ---------------------------------------------------------------------------
  // A collection entity that is a struct.

  /**
   * CanBuild accepts any entity type that implements IEnumerable<T>, but the
   * Any wrapper passes the entity to AsQueryable through Expression.Call,
   * which admits only reference conversions: for a struct collection the
   * build always throws, an ArgumentException once the item predicate is
   * built. The corrected check refuses it.
   */
  lemma ValueTypeCollectionFails(tf: Ty, te: Ty, c: ComparisonType, n: nat)
    requires CanBuild(tf, te, c) && GetItemTypeIfIEnumerable(te).Some? && te.flags.isValueType
    ensures var r := BuildPredicateExpression(tf, te, c, n);
      r.Failure? && (BuildItemPredicate(tf, te, c, n).Success? ==> r.error.InvalidArgument?)
    ensures !CorrectedCanBuild(tf, te, c)
  {
    var pred := BuildItemPredicate(tf, te, c, n);
    if pred.Success? {
      assert !AsQueryableAccepts(te, pred.value.e.params[1].ty);
    }
  }

  /** ImmutableArray<int>: a struct that is an IEnumerable<int>. */
  const ImmutableIntArrayType := Ty("System.Collections.Immutable.ImmutableArray`1", [IntType], false, StructFlags,
                                    Some(ValueTypeType), [IEnumerableOf(IntType)], [])

  /** An int filter against an ImmutableArray<int> entity with Equal: accepted, then an ArgumentException. */
  lemma ValueTypeCollectionBuildFails(n: nat)
    ensures CanBuild(IntType, ImmutableIntArrayType, ComparisonType.Equal)
    ensures var r := BuildPredicateExpression(IntType, ImmutableIntArrayType, ComparisonType.Equal, n);
      r.Failure? && r.error.InvalidArgument?
    ensures CorrectedBuild(IntType, ImmutableIntArrayType, ComparisonType.Equal, n) == Failure(InvalidOperation)
  {
    SimpleTypeFacts(IntType);
    assert GetItemTypeIfIEnumerable(ImmutableIntArrayType) == Some(IntType);
    ItemOffRangeOutcome(IntType, ImmutableIntArrayType, ComparisonType.Equal, n);
    ValueTypeCollectionFails(IntType, ImmutableIntArrayType, ComparisonType.Equal, n);
  }

  // ---------------------------------------------------------------------------
  // What a range filter means.

  /**
   * Against a single entity value, a range filter holds when the value equals
   * ExactValue, is at most MaxValue and at least MinValue, each bound that is
   * set; both ends are inclusive, and the comparison asked for plays no part.
   * A null entity value passes only an unbounded filter.
   */
  lemma RangeIsInclusive(tf: Ty, te: Ty, c: ComparisonType, min: Option<int>, max: Option<int>, exact: Option<int>, v: int)
    requires RangeDefinition(tf).Some? && GetItemTypeIfIEnumerable(te).None?
    ensures Meaning(tf, te, c, RangeValue(min, max, exact), Num(v))
      == Bool((exact.None? || exact.value == v) && (max.None? || v <= max.value) && (min.None? || min.value <= v))
    ensures Meaning(tf, te, c, RangeValue(min, max, exact), Null) == Bool(min.None? && max.None? && exact.None?)
  {
    var t := RangeArgument(tf);
    var a := RangeValue(min, max, exact);
    BoundMeaning(t, te, ExactValueName, ComparisonType.Equal, a);
    BoundMeaning(t, te, MaxValueName, ComparisonType.GreaterThanOrEqual, a);
    BoundMeaning(t, te, MinValueName, ComparisonType.LessThanOrEqual, a);
    assert ReadMember(a, PropertyAccess(ExactValueName, NullableOf(t))) == NullableNum(exact);
    assert ReadMember(a, PropertyAccess(MaxValueName, NullableOf(t))) == NullableNum(max);
    assert ReadMember(a, PropertyAccess(MinValueName, NullableOf(t))) == NullableNum(min);
    assert WithinBound(t, te, ExactValueName, ComparisonType.Equal, a, Num(v)) == (exact.None? || exact.value == v);
    assert WithinBound(t, te, MaxValueName, ComparisonType.GreaterThanOrEqual, a, Num(v)) == (max.None? || v <= max.value);
    assert WithinBound(t, te, MinValueName, ComparisonType.LessThanOrEqual, a, Num(v)) == (min.None? || min.value <= v);
    assert WithinBound(t, te, ExactValueName, ComparisonType.Equal, a, Null) == exact.None?;
    assert WithinBound(t, te, MaxValueName, ComparisonType.GreaterThanOrEqual, a, Null) == max.None?;
    assert WithinBound(t, te, MinValueName, ComparisonType.LessThanOrEqual, a, Null) == min.None?;
    assert Meaning(tf, te, c, a, Num(v)) == ItemMeaning(tf, te, c, a, Num(v));
    assert Meaning(tf, te, c, a, Null) == ItemMeaning(tf, te, c, a, Null);
  }

  /** A bound value admits x when it is unset or compares with x as asked. */
  predicate BoundAdmits(bound: Value, c: ComparisonType, x: Value) {
    bound == Null || Truthy(Compare(c, bound, x))
  }

  /** One bound of a range filter value compared with a single entity value by the bound's own comparison. */
  lemma BoundMeaning(t: Ty, te: Ty, bound: string, c: ComparisonType, a: Value)
    requires GetItemTypeIfIEnumerable(te).None?
    ensures forall x :: WithinBound(t, te, bound, c, a, x) == BoundAdmits(ReadMember(a, PropertyAccess(bound, NullableOf(t))), c, x)
  {
    NullableIsNotRangeOrCollection(t);
    forall x
      ensures WithinBound(t, te, bound, c, a, x) == BoundAdmits(ReadMember(a, PropertyAccess(bound, NullableOf(t))), c, x)
    {
      var v := ReadMember(a, PropertyAccess(bound, NullableOf(t)));
      assert Meaning(NullableOf(t), te, c, v, x) == ItemMeaning(NullableOf(t), te, c, v, x);
      assert ItemMeaning(NullableOf(t), te, c, v, x) == Compare(c, v, x);
    }
  }

  /** With the build: a range filter predicate over a single entity value keeps inclusive bounds. */
  lemma RangeBuildIsInclusive(tf: Ty, te: Ty, c: ComparisonType, n: nat,
                              min: Option<int>, max: Option<int>, exact: Option<int>, v: int)
    requires RangeDefinition(tf).Some? && GetItemTypeIfIEnumerable(te).None?
    requires BuildPredicateExpression(tf, te, c, n).Success?
    ensures Apply2(BuildPredicateExpression(tf, te, c, n).value.e, RangeValue(min, max, exact), Num(v))
      == Bool((exact.None? || exact.value == v) && (max.None? || v <= max.value) && (min.None? || min.value <= v))
  {
    BuildMeaning(tf, te, c, n);
    RangeIsInclusive(tf, te, c, min, max, exact, v);
  }
}
