/**
 * The predicate provider (BasePredicateProvider and LinqPredicateProvider):
 * CanBuildPredicateExpression decides from the two property types and a
 * comparison whether a predicate (filterValue, entityValue) => bool can be
 * built, and BuildPredicateExpression synthesises its expression tree.  The
 * provider has no state, so its members are functions of the types, the
 * comparison and the first unused node id.
 */
module PredicateProvider {
  import opened Wrappers
  import opened Types
  import opened TypeUtils
  import opened Expressions
  import opened ExpressionReplacer

  /** The values an enum-typed variable can hold that are none of the declared ones. */
  type UndeclaredCode = c: int | c < 0 || c > 4 witness -1

  /** ComparisonType: the five declared members, and any other value cast to the enum type. */
  datatype ComparisonType =
    | Equal
    | GreaterThan
    | GreaterThanOrEqual
    | LessThan
    | LessThanOrEqual
    | Undeclared(code: UndeclaredCode)

  /**
   * What a comparison means on run-time values, independently of how it is
   * compiled: equality treats null as equal only to null, and no ordering
   * holds when either side is null.
   */
  function Compare(c: ComparisonType, a: Value, b: Value): Value {
    match c
    case Equal => Bool(a == b)
    case GreaterThan => Bool(a.Num? && b.Num? && b.n < a.n)
    case GreaterThanOrEqual => Bool(a.Num? && b.Num? && !(a.n < b.n))
    case LessThan => Bool(a.Num? && b.Num? && a.n < b.n)
    case LessThanOrEqual => Bool(a.Num? && b.Num? && !(b.n < a.n))
    case Undeclared(_) => Null
  }

  /** Translates a comparison to the expression node type; an undeclared value is an ArgumentException. */
  function GetBinaryExpressionType(c: ComparisonType): (r: Result<BinaryOp>)
    ensures r.Success? <==> !c.Undeclared?
    ensures r.Failure? ==> r.error == InvalidArgument("predicateComparison")
    ensures r.Success? ==> r.value != AndAlso && r.value != OrElse
    ensures r.Success? ==> forall a, b :: Apply(r.value, a, b) == Compare(c, a, b)
  {
    match c
    case Equal => Success(BinaryOp.Equal)
    case GreaterThan => Success(BinaryOp.GreaterThan)
    case GreaterThanOrEqual => Success(BinaryOp.GreaterThanOrEqual)
    case LessThan => Success(BinaryOp.LessThan)
    case LessThanOrEqual => Success(BinaryOp.LessThanOrEqual)
    case Undeclared(_) => Failure(InvalidArgument("predicateComparison"))
  }

  /** Distinct comparisons are translated to distinct node types. */
  lemma GetBinaryExpressionTypeIsInjective(c1: ComparisonType, c2: ComparisonType)
    requires GetBinaryExpressionType(c1).Success? && GetBinaryExpressionType(c2).Success?
    requires GetBinaryExpressionType(c1) == GetBinaryExpressionType(c2)
    ensures c1 == c2
  {
  }

  // ---------------------------------------------------------------------------
  // Which types compare directly.

  /** The types CanCompareDirectly accepts: primitives, enums, string, DateTime and decimal. */
  predicate IsDirectlyComparable(t: Ty) {
    t.flags.isPrimitive || t.flags.isEnum || t == StringType || t == DateTimeType || t == DecimalType
  }

  /** The types that only compare for equality: bool, string and enums. */
  predicate IsEqualityOnly(t: Ty) {
    t == BoolType || t == StringType || t.flags.isEnum
  }

  /** CanCompareDirectly: after stripping Nullable<>, the same directly comparable type, and an ordering only where one is defined. */
  function CanCompareDirectly(t1: Ty, t2: Ty, c: ComparisonType): (r: bool)
    ensures r <==> GetNotNullableType(t1) == GetNotNullableType(t2)
                   && IsDirectlyComparable(GetNotNullableType(t1))
                   && (!c.Equal? ==> !IsEqualityOnly(GetNotNullableType(t1)))
  {
    var s1 := GetNotNullableType(t1);
    var s2 := GetNotNullableType(t2);
    if s1 != s2 then false
    else if !c.Equal? && (s1 == BoolType || s1 == StringType || s1.flags.isEnum) then false
    else s1.flags.isPrimitive || s1.flags.isEnum || s1 == StringType || s1 == DateTimeType || s1 == DecimalType
  }

  /** Comparability does not depend on which side is which. */
  lemma CanCompareDirectlyIsSymmetric(t1: Ty, t2: Ty, c: ComparisonType)
    ensures CanCompareDirectly(t1, t2, c) == CanCompareDirectly(t2, t1, c)
  {
  }

  /** Equality is the weakest demand: whatever compares by some comparison compares for equality. */
  lemma EqualityIsWeakest(t1: Ty, t2: Ty, c: ComparisonType)
    requires CanCompareDirectly(t1, t2, c)
    ensures CanCompareDirectly(t1, t2, ComparisonType.Equal)
  {
  }

  /** All comparisons other than Equal demand the same. */
  lemma OrderingsAgree(t1: Ty, t2: Ty, c1: ComparisonType, c2: ComparisonType)
    requires !c1.Equal? && !c2.Equal?
    ensures CanCompareDirectly(t1, t2, c1) == CanCompareDirectly(t1, t2, c2)
  {
  }

  /** Wrapping either side in Nullable<> does not change comparability. */
  lemma ComparabilityIgnoresLifting(t1: Ty, t2: Ty, c: ComparisonType)
    ensures GetNullableType(t1).Success? && GetNullableType(t2).Success? ==>
      CanCompareDirectly(GetNullableType(t1).value, GetNullableType(t2).value, c) == CanCompareDirectly(t1, t2, c)
  {
    if !IsInheritsFrom(t1, NullableDefinition) { NullableOfIsNullable(t1); }
    if !IsInheritsFrom(t2, NullableDefinition) { NullableOfIsNullable(t2); }
  }

  // ---------------------------------------------------------------------------
  // The operands CanBuildPredicateExpression compares.

  /** The IRangeFilter<> the filter type implements, if any. */
  function RangeDefinition(t: Ty): Option<Ty> {
    GetInheritanceDefinition(t, IRangeFilterDefinition)
  }

  /** The T of a filter type that implements IRangeFilter<T>. */
  function RangeArgument(t: Ty): Ty
    requires RangeDefinition(t).Some?
  {
    FirstGenericArgument(RangeDefinition(t).value)
  }

  /** What the filter side contributes: the item type of an ICollection, else the T of a range filter, else the type itself. */
  function FilterOperand(tf: Ty): Ty {
    match GetItemTypeIfICollection(tf)
    case Some(item) => item
    case None => if RangeDefinition(tf).Some? then RangeArgument(tf) else tf
  }

  /** What the entity side contributes: the item type of an IEnumerable, else the type itself. */
  function EntityOperand(te: Ty): Ty {
    match GetItemTypeIfIEnumerable(te)
    case Some(item) => item
    case None => te
  }

  /** Nullable<T> is neither a range filter nor a collection. */
  lemma NullableIsNotRangeOrCollection(t: Ty)
    ensures RangeDefinition(NullableOf(t)).None?
    ensures GetItemTypeIfICollection(NullableOf(t)).None?
  {
    assert NullableName[0] != IRangeFilterName[0];
    assert NullableName[7] != ICollectionName[7];
    assert !MatchesBase(NullableOf(t), IRangeFilterDefinition);
    assert !MatchesBase(NullableOf(t), ICollectionDefinition);
  }

  /** CanBuildPredicateExpression(Type, Type, ComparisonType) of LinqPredicateProvider. */
  function CanBuild(tf: Ty, te: Ty, c: ComparisonType): (r: bool)
    ensures GetItemTypeIfICollection(tf).Some? && !c.Equal? ==> !r
    ensures !(GetItemTypeIfICollection(tf).Some? && !c.Equal?) ==>
      (r <==> CanCompareDirectly(FilterOperand(tf), EntityOperand(te), c))
  {
    var filterItem := GetItemTypeIfICollection(tf);
    var entityItem := GetItemTypeIfIEnumerable(te);
    if filterItem.Some? && !c.Equal? then false
    else
      var range := GetInheritanceDefinition(tf, IRangeFilterDefinition);
      var tf' := if range.Some? then FirstGenericArgument(range.value) else tf;
      CanCompareDirectly(if filterItem.Some? then filterItem.value else tf',
                         if entityItem.Some? then entityItem.value else te, c)
  }

  // ---------------------------------------------------------------------------
  // Built predicates.

  /** A two-parameter lambda whose parameters are two distinct parameter nodes. */
  predicate IsPair(lam: Expr) {
    lam.Lambda? && |lam.params| == 2 && lam.params[0].Parameter? && lam.params[1].Parameter?
    && lam.params[0] != lam.params[1]
  }

  /** A pair lambda over the given parameter types: Expression<Func<T1, T2, bool>>. */
  predicate HasParameterTypes(lam: Expr, t1: Ty, t2: Ty) {
    lam.Lambda? && |lam.params| == 2 && lam.params[0].Parameter? && lam.params[1].Parameter?
    && lam.params[0].ty == t1 && lam.params[1].ty == t2
  }

  predicate IdsWithin(s: set<Expr>, lo: nat, hi: nat) {
    forall x | x in s :: lo <= x.id < hi
  }

  /**
   * A predicate built from the ids in [lo, hi): a pair lambda whose body is
   * well formed, declares neither parameter again, and mentions and declares
   * only nodes of that range.
   */
  predicate IsPredicate(lam: Expr, lo: nat, hi: nat) {
    IsPair(lam) && IdsWithin({lam.params[0], lam.params[1]}, lo, hi)
    && WellFormed(lam.body) && lam.params[0] !in Binds(lam.body) && lam.params[1] !in Binds(lam.body)
    && IdsWithin(ParamsOf(lam.body), lo, hi) && IdsWithin(Binds(lam.body), lo, hi)
  }

  /** Queryable.Any of a predicate over the items of a collection value, with the first argument fixed. */
  function AnyItem(pred: Expr, a: Value, l: Value): Value {
    if l.Items? then Bool(exists i | 0 <= i < |l.items| :: Truthy(Apply2(pred, a, l.items[i]))) else Null
  }

  // ---------------------------------------------------------------------------
  // The builders.

  /** (p1, p2) => p1 op p2 over fresh parameters of the given types. */
  function CreateDirectCompareExpression(t1: Ty, t2: Ty, c: ComparisonType, n: nat): (r: Result<Built>)
    ensures r.Success? <==> !c.Undeclared?
    ensures r.Failure? ==> r.error.InvalidArgument?
    ensures r.Success? ==> IsPredicate(r.value.e, n, r.value.next) && HasParameterTypes(r.value.e, t1, t2)
    ensures r.Success? ==> forall a, b :: Apply2(r.value.e, a, b) == Compare(c, a, b)
  {
    var p1 := Parameter(n, t1, "");
    var p2 := Parameter(n + 1, t2, "");
    var op :- GetBinaryExpressionType(c);
    var lam := Lambda(n + 3, Binary(n + 2, op, p1, p2, None, false, None), [p1, p2]);
    assert forall a, b :: Apply2(lam, a, b) == Apply(op, a, b) by {
      forall a, b ensures Apply2(lam, a, b) == Apply(op, a, b) {
        var env := map[p1 := a][p2 := b];
        assert Eval(p1, env) == a && Eval(p2, env) == b;
        assert Eval(lam.body, env) == Apply(op, a, b);
      }
    }
    Success(Built(lam, n + 4))
  }

  /** The parameter that takes the place of p: the same name, the type with Nullable<> stripped. */
  function NotNullableParameter(p: Expr, n: nat): (r: Expr)
    requires p.Parameter?
    ensures r.Parameter? && r.id == n && r.name == p.name && r.ty == GetNotNullableType(p.ty)
  {
    Parameter(n, GetNotNullableType(p.ty), p.name)
  }

  /** A parameter list entry after p was replaced by q. */
  function Renamed(x: Expr, p: Expr, q: Expr): Expr {
    if x == p then q else x
  }

  /**
   * ChangeParameterTypeToNotNullable: the parameter p is replaced in the list
   * by a non-nullable parameter, and in the body by that parameter converted
   * back to p's type.
   */
  function ChangeParameterTypeToNotNullable(lam: Expr, p: Expr, n: nat): (r: Built)
    requires IsPair(lam) && p.Parameter?
    ensures r.e.Lambda? && r.next > n
    ensures r.e.params == [Renamed(lam.params[0], p, NotNullableParameter(p, n)), Renamed(lam.params[1], p, NotNullableParameter(p, n))]
  {
    var np := NotNullableParameter(p, n);
    var conv := Unary(n + 1, Convert, np, p.ty, None);
    var body := Replace(lam.body, AnyKind, p, conv, n + 2);
    ReplaceParameterPair(lam.params[0], lam.params[1], p, np, body.next);
    var ps := ReplaceAll(lam.params, ParameterKind, p, np, body.next);
    assert lam.params == [lam.params[0], lam.params[1]];
    Built(Lambda(ps.next, body.e, ps.es), ps.next + 1)
  }

  /**
   * BuildPredicateExpressionForSingleValueTypes: if either side is nullable,
   * both are lifted to Nullable<>; a direct comparison is built, and each side
   * that was not nullable gets its non-nullable parameter back.  None when the
   * lifted types do not compare (the source returns null).
   */
  function BuildForSingleValueTypes(tf: Ty, te: Ty, c: ComparisonType, n: nat): (r: Result<Option<Built>>)
    ensures r.Success? && r.value.None? ==> !CanCompareDirectly(tf, te, c)
    ensures r.Success? && r.value.Some? ==> IsPair(r.value.value.e) && HasParameterTypes(r.value.value.e, tf, te)
    ensures r.Success? && r.value.Some? ==> r.value.value.next > n
    ensures r.Failure? ==> r.error.InvalidArgument?
  {
    var filterNullable := IsInheritsFrom(tf, NullableDefinition);
    var entityNullable := IsInheritsFrom(te, NullableDefinition);
    var t1 :- if filterNullable || entityNullable then GetNullableType(tf) else Success(tf);
    var t2 :- if filterNullable || entityNullable then GetNullableType(te) else Success(te);
    ComparabilityIgnoresLifting(tf, te, c);
    if !CanCompareDirectly(t1, t2, c) then Success(None)
    else
      var d :- CreateDirectCompareExpression(t1, t2, c, n);
      var d1 := if filterNullable then d else ChangeParameterTypeToNotNullable(d.e, d.e.params[0], d.next);
      var d2 := if entityNullable then d1 else ChangeParameterTypeToNotNullable(d1.e, d1.e.params[1], d1.next);
      NullableOfIsNullable(tf);
      NullableOfIsNullable(te);
      Success(Some(d2))
  }

  /** Replacing a parameter by its non-nullable twin converted back keeps the predicate and its meaning. */
  lemma ChangeParameterKeepsMeaning(lam: Expr, p: Expr, lo: nat, n: nat)
    requires IsPredicate(lam, lo, n) && (p == lam.params[0] || p == lam.params[1])
    ensures var r := ChangeParameterTypeToNotNullable(lam, p, n);
      IsPredicate(r.e, lo, r.next) && forall a, b :: Apply2(r.e, a, b) == Apply2(lam, a, b)
  {
    var np := NotNullableParameter(p, n);
    var conv := Unary(n + 1, Convert, np, p.ty, None);
    var body := Replace(lam.body, AnyKind, p, conv, n + 2);
    var r := ChangeParameterTypeToNotNullable(lam, p, n);
    assert r.e.body == body.e;
    ReplaceFootprint(lam.body, AnyKind, p, conv, n + 2);
    assert ParamsOf(conv) == {np} && Binds(conv) == {};
    assert Binds(body.e) <= Binds(lam.body);
    var q0, q1 := lam.params[0], lam.params[1];
    assert r.e.params[0] !in Binds(body.e) && r.e.params[1] !in Binds(body.e);
    forall a, b ensures Apply2(r.e, a, b) == Apply2(lam, a, b) {
      var env := map[r.e.params[0] := a][r.e.params[1] := b];
      var v := if p == q0 then a else b;
      assert Eval(conv, env) == v;
      ReplaceEval(lam.body, p, conv, n + 2, env);
      EvalFrame(lam.body, env[p := v], map[q0 := a][q1 := b]);
    }
  }

  /** A single-value predicate is a predicate of fresh nodes that means the comparison itself. */
  lemma SingleValueMeaning(tf: Ty, te: Ty, c: ComparisonType, n: nat)
    ensures var r := BuildForSingleValueTypes(tf, te, c, n);
      r.Success? && r.value.Some? ==>
        IsPredicate(r.value.value.e, n, r.value.value.next)
        && forall a, b :: Apply2(r.value.value.e, a, b) == Compare(c, a, b)
  {
    var filterNullable := IsInheritsFrom(tf, NullableDefinition);
    var entityNullable := IsInheritsFrom(te, NullableDefinition);
    var lifted := filterNullable || entityNullable;
    var t1 := if lifted then GetNullableType(tf) else Success(tf);
    var t2 := if lifted then GetNullableType(te) else Success(te);
    var r := BuildForSingleValueTypes(tf, te, c, n);
    if r.Success? && r.value.Some? {
      assert t1.Success? && t2.Success? && CanCompareDirectly(t1.value, t2.value, c);
      var dr := CreateDirectCompareExpression(t1.value, t2.value, c, n);
      assert dr.Success?;
      var d := dr.value;
      var d1 := if filterNullable then d else ChangeParameterTypeToNotNullable(d.e, d.e.params[0], d.next);
      var d2 := if entityNullable then d1 else ChangeParameterTypeToNotNullable(d1.e, d1.e.params[1], d1.next);
      assert r.value.value == d2;
      LiftedMeaning(d, filterNullable, entityNullable, c, n);
    }
  }

  /** Undoing the lifting of either parameter keeps a comparison predicate and its meaning. */
  lemma LiftedMeaning(d: Built, filterNullable: bool, entityNullable: bool, c: ComparisonType, n: nat)
    requires IsPredicate(d.e, n, d.next) && forall a, b :: Apply2(d.e, a, b) == Compare(c, a, b)
    ensures var d1 := if filterNullable then d else ChangeParameterTypeToNotNullable(d.e, d.e.params[0], d.next);
      var d2 := if entityNullable then d1 else ChangeParameterTypeToNotNullable(d1.e, d1.e.params[1], d1.next);
      IsPredicate(d2.e, n, d2.next) && forall a, b :: Apply2(d2.e, a, b) == Compare(c, a, b)
  {
    var d1 := if filterNullable then d else ChangeParameterTypeToNotNullable(d.e, d.e.params[0], d.next);
    if !filterNullable { ChangeParameterKeepsMeaning(d.e, d.e.params[0], n, d.next); }
    if !entityNullable { ChangeParameterKeepsMeaning(d1.e, d1.e.params[1], n, d1.next); }
  }

  /** Expression.Call's check of an argument against a parameter type: the same type, or a reference conversion. */
  predicate AcceptsArgument(parameterType: Ty, argumentType: Ty) {
    argumentType == parameterType
    || (!argumentType.flags.isValueType && !parameterType.flags.isValueType && IsInheritsFrom(argumentType, parameterType))
  }

  /** (collection, item) => collection.Contains(item), through ICollection<T>.Contains of the filter's item type. */
  function CreateContainsMethodCallExpression(tf: Ty, filterItem: Ty, te: Ty, n: nat): (r: Result<Built>)
    ensures r.Success? <==> AcceptsArgument(filterItem, te)
    ensures r.Failure? ==> r.error.InvalidArgument?
    ensures r.Success? ==> IsPredicate(r.value.e, n, r.value.next) && HasParameterTypes(r.value.e, tf, te)
    ensures r.Success? ==> forall a, b :: Apply2(r.value.e, a, b) == ContainsValue(a, b)
  {
    var fp := Parameter(n, tf, "");
    var ep := Parameter(n + 1, te, "");
    if !AcceptsArgument(filterItem, te) then Failure(InvalidArgument(""))
    else
      var lam := Lambda(n + 3, Call(n + 2, Some(fp), CollectionContains(filterItem), [ep]), [fp, ep]);
      assert ParamsOfAll([ep]) == {ep} && BindsAll([ep]) == {};
      assert forall a, b :: Apply2(lam, a, b) == ContainsValue(a, b) by {
        forall a, b ensures Apply2(lam, a, b) == ContainsValue(a, b) {
          var env := map[fp := a][ep := b];
          assert Eval(fp, env) == a && Eval(ep, env) == b;
        }
      }
      Success(Built(lam, n + 4))
  }

  /** Whether a type is an IEnumerable<item>: the IEnumerable<> it implements has that argument. */
  predicate IsEnumerableOf(t: Ty, item: Ty) {
    var d := GetInheritanceDefinition(t, IEnumerableDefinition);
    d.Some? && FirstGenericArgument(d.value) == item
  }

  /**
   * Expression.Call's check of an argument of type t against the
   * IEnumerable<item> parameter of AsQueryable: t is an IEnumerable<item>
   * reached by a reference conversion, so not a value type (boxing is not
   * a reference conversion).
   */
  predicate AsQueryableAccepts(t: Ty, item: Ty) {
    IsEnumerableOf(t, item) && !t.flags.isValueType
  }

  /** An entity type that is a collection is a reference type, so the Any call can take it. */
  predicate ReferenceCollection(te: Ty) {
    GetItemTypeIfIEnumerable(te).Some? ==> !te.flags.isValueType
  }

  /** The static type of a quoted predicate over T: Expression<Func<T, bool>>. */
  function QuotedPredicateType(t: Ty): Ty {
    Ty("System.Linq.Expressions.Expression`1", [Ty("System.Func`2", [t, BoolType], false, ClassFlags, Some(ObjectType), [], [])],
       false, ClassFlags, Some(ObjectType), [], [])
  }

  /**
   * CreateAnyMethodCallExpression: (a, items) => items.AsQueryable().Any(x => body)
   * where the predicate's second parameter x becomes the bound variable of the
   * quoted inner lambda, and a fresh parameter of the collection type takes its
   * place in the list.
   */
  function CreateAnyMethodCallExpression(pred: Expr, te: Ty, n: nat): (r: Result<Built>)
    requires IsPair(pred)
    ensures r.Success? <==> AsQueryableAccepts(te, pred.params[1].ty)
    ensures r.Failure? ==> r.error.InvalidArgument?
    ensures r.Success? ==> HasParameterTypes(r.value.e, pred.params[0].ty, te) && r.value.next > n
  {
    var item := pred.params[1];
    var lp := Parameter(n, te, "");
    if !AsQueryableAccepts(te, item.ty) then Failure(InvalidArgument(""))
    else
      var callAny := AnyCall(pred.body, item, lp, n);
      ReplaceParameterPair(pred.params[0], item, item, lp, n + 5);
      assert pred.params == [pred.params[0], item];
      var ps := ReplaceAll(pred.params, ParameterKind, item, lp, n + 5);
      Success(Built(Lambda(ps.next, callAny, ps.es), ps.next + 1))
  }

  /** The Any predicate is a predicate of its own ids that holds when the original holds for some item. */
  lemma CreateAnyMeaning(pred: Expr, te: Ty, lo: nat, n: nat)
    requires IsPredicate(pred, lo, n)
    ensures var r := CreateAnyMethodCallExpression(pred, te, n);
      r.Success? ==>
        IsPredicate(r.value.e, lo, r.value.next) && forall a, l :: Apply2(r.value.e, a, l) == AnyItem(pred, a, l)
  {
    var q0, item := pred.params[0], pred.params[1];
    if AsQueryableAccepts(te, item.ty) {
      var lp := Parameter(n, te, "");
      var callAny := AnyCall(pred.body, item, lp, n);
      var r := CreateAnyMethodCallExpression(pred, te, n).value;
      ReplaceParameterPair(q0, item, item, lp, n + 5);
      assert pred.params == [q0, item];
      assert r.e.params == [q0, lp] && r.e.body == callAny;
      AnyCallFootprint(pred.body, item, lp, n);
      forall a, l ensures Apply2(r.e, a, l) == AnyItem(pred, a, l) {
        AnyCallEval(pred, lp, n, a, l);
      }
    }
  }

  /** items.AsQueryable().Any(Quote(item => body)) over the collection parameter lp. */
  function AnyCall(body: Expr, item: Expr, lp: Expr, n: nat): Expr
    requires item.Parameter?
  {
    var asQueryable := Call(n + 1, None, AsQueryable(item.ty), [lp]);
    var quoted := Unary(n + 3, Quote, Lambda(n + 2, body, [item]), QuotedPredicateType(item.ty), None);
    Call(n + 4, None, QueryableAny(item.ty), [asQueryable, quoted])
  }

  lemma AnyCallFootprint(body: Expr, item: Expr, lp: Expr, n: nat)
    requires item.Parameter? && lp.Parameter? && WellFormed(body)
    ensures var c := AnyCall(body, item, lp, n);
      WellFormed(c) && ParamsOf(c) == {lp} + ParamsOf(body) + {item} && Binds(c) == Binds(body) + {item}
  {
    var asQueryable := Call(n + 1, None, AsQueryable(item.ty), [lp]);
    var inner := Lambda(n + 2, body, [item]);
    var quoted := Unary(n + 3, Quote, inner, QuotedPredicateType(item.ty), None);
    SingletonList(lp);
    SingletonList(item);
    assert (set p | p in [item]) == {item};
    assert Binds(inner) == Binds(body) + {item};
    assert ParamsOf(inner) == ParamsOf(body) + {item};
    PairList(asQueryable, quoted);
  }

  /** The footprint of a one-element list is that of its element. */
  lemma SingletonList(x: Expr)
    ensures ParamsOfAll([x]) == ParamsOf(x) && BindsAll([x]) == Binds(x) && WellFormedAll([x]) == WellFormed(x)
  {
    assert [x][1..] == [];
  }

  /** The footprint of a two-element list is the union of its elements'. */
  lemma PairList(x: Expr, y: Expr)
    ensures ParamsOfAll([x, y]) == ParamsOf(x) + ParamsOf(y)
    ensures BindsAll([x, y]) == Binds(x) + Binds(y)
    ensures WellFormedAll([x, y]) == (WellFormed(x) && WellFormed(y))
  {
    assert [x, y][1..] == [y];
    SingletonList(y);
  }

  lemma AnyCallEval(pred: Expr, lp: Expr, n: nat, a: Value, l: Value)
    requires IsPair(pred) && IdsWithin(ParamsOf(pred.body), 0, n) && lp.Parameter? && lp.id == n
    ensures var env := map[pred.params[0] := a][lp := l];
      Eval(AnyCall(pred.body, pred.params[1], lp, n), env) == AnyItem(pred, a, l)
  {
    var q0, item := pred.params[0], pred.params[1];
    var env := map[q0 := a][lp := l];
    var asQueryable := Call(n + 1, None, AsQueryable(item.ty), [lp]);
    var quoted := Unary(n + 3, Quote, Lambda(n + 2, pred.body, [item]), QuotedPredicateType(item.ty), None);
    assert Eval(lp, env) == l;
    assert Eval(asQueryable, env) == l;
    assert Eval(AnyCall(pred.body, item, lp, n), env) == EvalAny(l, quoted, env);
    if l.Items? {
      forall i | 0 <= i < |l.items|
        ensures Eval(pred.body, env[item := l.items[i]]) == Apply2(pred, a, l.items[i])
      {
        EvalFrame(pred.body, env[item := l.items[i]], map[q0 := a][item := l.items[i]]);
      }
    }
  }

  // ---------------------------------------------------------------------------
  // BuildPredicateExpression and the range filter predicate.

  /** 1 for a range filter type, whose build recurses once into builds for its Nullable<T> bounds; 0 otherwise. */
  function RangeRank(t: Ty): nat {
    if RangeDefinition(t).Some? then 1 else 0
  }

  /**
   * BuildPredicateExpression<TFilter, TEntity> of LinqPredicateProvider:
   * refused with an InvalidOperationException where CanBuild says no; then a
   * range predicate, a single-value comparison or a Contains call, wrapped in
   * Any when the entity side is a collection, which fails for a collection
   * that is a struct.
   */
  function BuildPredicateExpression(tf: Ty, te: Ty, c: ComparisonType, n: nat): (r: Result<Built>)
    ensures !CanBuild(tf, te, c) ==> r == Failure(InvalidOperation)
    ensures r.Success? ==> HasParameterTypes(r.value.e, tf, te) && r.value.next > n
    ensures GetItemTypeIfIEnumerable(te).Some? && te.flags.isValueType ==> r.Failure?
    decreases RangeRank(tf), 3
  {
    if !CanBuild(tf, te, c) then Failure(InvalidOperation)
    else
      var pred :- BuildItemPredicate(tf, te, c, n);
      if GetItemTypeIfIEnumerable(te).Some? then CreateAnyMethodCallExpression(pred.e, te, pred.next)
      else Success(pred)
  }

  /** The predicate on one entity item, after the CanBuild check: range, single value or Contains. */
  function BuildItemPredicate(tf: Ty, te: Ty, c: ComparisonType, n: nat): (r: Result<Built>)
    requires CanBuild(tf, te, c)
    ensures r.Success? ==> IsPair(r.value.e) && r.value.next > n
    ensures r.Success? ==> HasParameterTypes(r.value.e, tf, if RangeDefinition(tf).Some? then te else EntityOperand(te))
    decreases RangeRank(tf), 2
  {
    var filterItem := GetItemTypeIfICollection(tf);
    var range := RangeDefinition(tf);
    if range.Some? then BuildRangePredicateExpression(tf, te, range.value, n)
    else if filterItem.None? then
      var single :- BuildForSingleValueTypes(tf, EntityOperand(te), c, n);
      if single.Some? then Success(single.value) else assert false; Failure(InvalidOperation)
    else CreateContainsMethodCallExpression(tf, filterItem.value, EntityOperand(te), n)
  }

  /**
   * BuildRangePredicateExpression: (f, e) => exact && (max && min), one
   * nullable comparison per bound: ExactValue == e, MaxValue >= e, MinValue <= e.
   */
  function BuildRangePredicateExpression(tf: Ty, te: Ty, range: Ty, n: nat): (r: Result<Built>)
    ensures r.Success? ==> IsPair(r.value.e) && HasParameterTypes(r.value.e, tf, te) && r.value.next > n
    decreases 1, 1
  {
    var t := FirstGenericArgument(range);
    var fp := Parameter(n, tf, "");
    var ep := Parameter(n + 1, te, "");
    var exact :- CreateNullableComparisonPredicate(fp, ep, ExactValueName, t, ComparisonType.Equal, n + 2);
    var max :- CreateNullableComparisonPredicate(fp, ep, MaxValueName, t, ComparisonType.GreaterThanOrEqual, exact.next);
    var min :- CreateNullableComparisonPredicate(fp, ep, MinValueName, t, ComparisonType.LessThanOrEqual, max.next);
    Success(RangeLambdaOf(fp, ep, exact, max, min))
  }

  /** (f, e) => exact && (max && min), with the nodes after min's. */
  function RangeLambdaOf(fp: Expr, ep: Expr, exact: Built, max: Built, min: Built): Built {
    var bounds := Binary(min.next, AndAlso, max.e, min.e, None, false, None);
    var combined := Binary(min.next + 1, AndAlso, exact.e, bounds, None, false, None);
    Built(Lambda(min.next + 2, combined, [fp, ep]), min.next + 3)
  }

  /** The bound property of a range filter, of type Nullable<T>. */
  function BoundAccess(fp: Expr, bound: string, t: Ty, n: nat): Expr {
    Member(n, Some(fp), PropertyAccess(bound, NullableOf(t)))
  }

  /** !bound.HasValue. */
  function BoundIsNull(sub: Expr, n: nat): Expr {
    Unary(n + 1, Not, Member(n, Some(sub), HasValue), BoolType, None)
  }

  /**
   * CreateNullableComparisionPredicate: !f.Bound.HasValue || p(f.Bound, e),
   * where p is the predicate built for (T?, the entity type) with its two
   * parameters replaced by the bound access and the entity parameter.
   */
  function CreateNullableComparisonPredicate(fp: Expr, ep: Expr, bound: string, t: Ty, c: ComparisonType, n: nat): (r: Result<Built>)
    requires ep.Parameter?
    ensures r.Success? ==> r.value.next > n
    decreases 1, 0
  {
    NullableIsNotRangeOrCollection(t);
    var pred :- BuildPredicateExpressionNonGeneric(Some(NullableOf(t)), Some(ep.ty), c, n + 3);
    Success(NullableComparisonOf(pred.e, fp, ep, bound, t, n, pred.next))
  }

  /**
   * The body of a two-parameter lambda after ReplaceExpression of its first
   * parameter by a and then of its second by b, both on the lambda itself.
   */
  function SubstituteParameters(pred: Expr, a: Expr, b: Expr, n: nat): (r: Built)
    requires pred.Lambda? && |pred.params| == 2 && pred.params[0].Parameter? && pred.params[1].Parameter?
    ensures r.next >= n
  {
    ReplaceInPairLambda(pred, LambdaKind, pred.params[0], a, n);
    var p1 := Replace(pred, LambdaKind, pred.params[0], a, n);
    ReplaceInPairLambda(p1.e, LambdaKind, p1.e.params[1], b, p1.next);
    var p2 := Replace(p1.e, LambdaKind, p1.e.params[1], b, p1.next);
    Built(p2.e.body, p2.next)
  }

  /** BuildPredicateExpression(Type, Type, ComparisonType): null types are rejected, then the generic build runs. */
  function BuildPredicateExpressionNonGeneric(t1: Option<Ty>, t2: Option<Ty>, c: ComparisonType, n: nat): (r: Result<Built>)
    ensures t1.None? ==> r == Failure(ArgumentNull("t1"))
    ensures t1.Some? && t2.None? ==> r == Failure(ArgumentNull("t2"))
    ensures t1.Some? && t2.Some? ==> r == BuildPredicateExpression(t1.value, t2.value, c, n)
    decreases if t1.Some? then RangeRank(t1.value) else 0, 4
  {
    if t1.None? then Failure(ArgumentNull("t1"))
    else if t2.None? then Failure(ArgumentNull("t2"))
    else BuildPredicateExpression(t1.value, t2.value, c, n)
  }

  // ---------------------------------------------------------------------------
  // Every build is a predicate of fresh nodes.

  /** What a bound comparison may mention: the two parameters it was given and nodes of its own ids. */
  predicate IsBoundComparison(e: Expr, fp: Expr, ep: Expr, lo: nat, hi: nat) {
    WellFormed(e) && fp !in Binds(e) && ep !in Binds(e)
    && (forall x | x in ParamsOf(e) :: x == fp || x == ep || lo <= x.id < hi)
    && IdsWithin(Binds(e), lo, hi)
  }

  lemma {:induction false} BuildIsPredicate(tf: Ty, te: Ty, c: ComparisonType, n: nat)
    ensures var r := BuildPredicateExpression(tf, te, c, n);
      r.Success? ==> IsPredicate(r.value.e, n, r.value.next)
    decreases RangeRank(tf), 6
  {
    var r := BuildPredicateExpression(tf, te, c, n);
    if r.Success? {
      BuildItemIsPredicate(tf, te, c, n);
      var pred := BuildItemPredicate(tf, te, c, n).value;
      if GetItemTypeIfIEnumerable(te).Some? {
        CreateAnyMeaning(pred.e, te, n, pred.next);
      }
    }
  }

  lemma {:induction false} BuildItemIsPredicate(tf: Ty, te: Ty, c: ComparisonType, n: nat)
    requires CanBuild(tf, te, c)
    ensures var r := BuildItemPredicate(tf, te, c, n);
      r.Success? ==> IsPredicate(r.value.e, n, r.value.next)
    decreases RangeRank(tf), 5
  {
    var range := RangeDefinition(tf);
    if range.Some? {
      RangeIsPredicate(tf, te, range.value, n);
    } else if GetItemTypeIfICollection(tf).None? {
      SingleValueMeaning(tf, EntityOperand(te), c, n);
    }
  }

  lemma {:induction false} RangeIsPredicate(tf: Ty, te: Ty, range: Ty, n: nat)
    ensures var r := BuildRangePredicateExpression(tf, te, range, n);
      r.Success? ==> IsPredicate(r.value.e, n, r.value.next)
    decreases 1, 4
  {
    var r := BuildRangePredicateExpression(tf, te, range, n);
    if r.Success? {
      var exact, max, min := RangeParts(tf, te, range, n);
      RangeLambdaIsPredicate(tf, te, exact, max, min, n);
    }
  }

  /** A successful range predicate is made of three bound comparisons over consecutive id ranges. */
  lemma {:induction false} RangeParts(tf: Ty, te: Ty, range: Ty, n: nat) returns (exact: Built, max: Built, min: Built)
    ensures var r := BuildRangePredicateExpression(tf, te, range, n);
      var fp, ep := Parameter(n, tf, ""), Parameter(n + 1, te, "");
      r.Success? ==>
        r.value == RangeLambdaOf(fp, ep, exact, max, min)
        && IsBoundComparison(exact.e, fp, ep, n + 2, exact.next)
        && IsBoundComparison(max.e, fp, ep, exact.next, max.next)
        && IsBoundComparison(min.e, fp, ep, max.next, min.next)
        && n + 2 < exact.next < max.next < min.next
    decreases 1, 3
  {
    var t := FirstGenericArgument(range);
    var fp := Parameter(n, tf, "");
    var ep := Parameter(n + 1, te, "");
    var rx := CreateNullableComparisonPredicate(fp, ep, ExactValueName, t, ComparisonType.Equal, n + 2);
    exact, max, min := Built(fp, 0), Built(fp, 0), Built(fp, 0);
    if rx.Success? {
      exact := rx.value;
      NullableComparisonFootprint(fp, ep, ExactValueName, t, ComparisonType.Equal, n + 2);
      var rM := CreateNullableComparisonPredicate(fp, ep, MaxValueName, t, ComparisonType.GreaterThanOrEqual, exact.next);
      if rM.Success? {
        max := rM.value;
        NullableComparisonFootprint(fp, ep, MaxValueName, t, ComparisonType.GreaterThanOrEqual, exact.next);
        var rm := CreateNullableComparisonPredicate(fp, ep, MinValueName, t, ComparisonType.LessThanOrEqual, max.next);
        if rm.Success? {
          min := rm.value;
          NullableComparisonFootprint(fp, ep, MinValueName, t, ComparisonType.LessThanOrEqual, max.next);
        }
      }
    }
  }

  lemma RangeLambdaIsPredicate(tf: Ty, te: Ty, exact: Built, max: Built, min: Built, n: nat)
    requires var fp, ep := Parameter(n, tf, ""), Parameter(n + 1, te, "");
      IsBoundComparison(exact.e, fp, ep, n + 2, exact.next)
      && IsBoundComparison(max.e, fp, ep, exact.next, max.next)
      && IsBoundComparison(min.e, fp, ep, max.next, min.next)
      && n + 2 < exact.next < max.next < min.next
    ensures var r := RangeLambdaOf(Parameter(n, tf, ""), Parameter(n + 1, te, ""), exact, max, min);
      IsPredicate(r.e, n, r.next)
  {
    var fp, ep := Parameter(n, tf, ""), Parameter(n + 1, te, "");
    var bounds := Binary(min.next, AndAlso, max.e, min.e, None, false, None);
    assert ParamsOf(bounds) == ParamsOf(max.e) + ParamsOf(min.e);
    assert Binds(bounds) == Binds(max.e) + Binds(min.e);
    assert IsBoundComparison(bounds, fp, ep, n + 2, min.next + 2);
    var combined := Binary(min.next + 1, AndAlso, exact.e, bounds, None, false, None);
    assert ParamsOf(combined) == ParamsOf(exact.e) + ParamsOf(bounds);
    assert Binds(combined) == Binds(exact.e) + Binds(bounds);
    assert IsBoundComparison(combined, fp, ep, n + 2, min.next + 2);
  }

  /** !f.Bound.HasValue || p(f.Bound, e) for a built predicate p whose nodes end below m. */
  function NullableComparisonOf(pred: Expr, fp: Expr, ep: Expr, bound: string, t: Ty, n: nat, m: nat): Built
    requires pred.Lambda? && |pred.params| == 2 && pred.params[0].Parameter? && pred.params[1].Parameter?
  {
    var sub := BoundAccess(fp, bound, t, n);
    var body := SubstituteParameters(pred, sub, ep, m);
    Built(Binary(body.next, OrElse, BoundIsNull(sub, n + 1), body.e, None, false, None), body.next + 1)
  }

  lemma {:induction false} NullableComparisonFootprint(fp: Expr, ep: Expr, bound: string, t: Ty, c: ComparisonType, n: nat)
    requires fp.Parameter? && ep.Parameter? && fp.id < n && ep.id < n
    ensures var r := CreateNullableComparisonPredicate(fp, ep, bound, t, c, n);
      r.Success? ==> IsBoundComparison(r.value.e, fp, ep, n, r.value.next)
    decreases 1, 2
  {
    var r := CreateNullableComparisonPredicate(fp, ep, bound, t, c, n);
    if r.Success? {
      var pred := NullableComparisonParts(fp, ep, bound, t, c, n);
      OrElseIsBoundComparison(pred.e, fp, ep, bound, t, n, pred.next);
    }
  }

  /** A successful nullable comparison is the OrElse over a predicate of the ids from n + 3 on. */
  lemma {:induction false} NullableComparisonParts(fp: Expr, ep: Expr, bound: string, t: Ty, c: ComparisonType, n: nat)
    returns (pred: Built)
    requires ep.Parameter?
    ensures var r := CreateNullableComparisonPredicate(fp, ep, bound, t, c, n);
      r.Success? ==>
        IsPredicate(pred.e, n + 3, pred.next) && r.value == NullableComparisonOf(pred.e, fp, ep, bound, t, n, pred.next)
        && BuildPredicateExpression(NullableOf(t), ep.ty, c, n + 3) == Success(pred)
    decreases 1, 1
  {
    NullableIsNotRangeOrCollection(t);
    var b := BuildPredicateExpression(NullableOf(t), ep.ty, c, n + 3);
    BuildIsPredicate(NullableOf(t), ep.ty, c, n + 3);
    if b.Success? {
      pred := b.value;
    } else {
      pred := Built(Parameter(0, ep.ty, ""), 0);
    }
  }

  lemma OrElseIsBoundComparison(pred: Expr, fp: Expr, ep: Expr, bound: string, t: Ty, n: nat, m: nat)
    requires IsPredicate(pred, n + 3, m) && fp.Parameter? && ep.Parameter? && fp.id < n && ep.id < n
    ensures var r := NullableComparisonOf(pred, fp, ep, bound, t, n, m);
      IsBoundComparison(r.e, fp, ep, n, r.next)
  {
    var sub := BoundAccess(fp, bound, t, n);
    var body := SubstituteParameters(pred, sub, ep, m);
    SubstituteFootprint(pred, n + 3, m, sub, ep, m);
    assert ParamsOf(sub) == {fp} && Binds(sub) == {};
    var hasValue := Member(n + 1, Some(sub), HasValue);
    assert ParamsOf(hasValue) == {fp} && Binds(hasValue) == {};
    assert BoundIsNull(sub, n + 1) == Unary(n + 2, Not, hasValue, BoolType, None);
  }

  /** Substituting for both parameters: well formed, mentioning the body's nodes, a and b, and declaring only the body's. */
  lemma SubstituteFootprint(pred: Expr, lo: nat, hi: nat, a: Expr, b: Expr, n: nat)
    requires IsPredicate(pred, lo, hi) && WellFormed(a) && !a.Parameter? && b.Parameter?
    requires pred.params[1] !in Binds(a)
    ensures var r := SubstituteParameters(pred, a, b, n).e;
      WellFormed(r) && ParamsOf(r) <= ParamsOf(pred.body) + ParamsOf(a) + {b}
      && Binds(r) <= Binds(pred.body) + Binds(a)
  {
    var q0, q1 := pred.params[0], pred.params[1];
    ReplaceInPairLambda(pred, LambdaKind, q0, a, n);
    var p1 := Replace(pred, LambdaKind, q0, a, n);
    ReplaceFootprint(pred.body, AnyKind, q0, a, n);
    assert p1.e.params == [q0, q1];
    ReplaceInPairLambda(p1.e, LambdaKind, q1, b, p1.next);
    ReplaceFootprint(p1.e.body, AnyKind, q1, b, p1.next);
  }

  // ---------------------------------------------------------------------------
  // What a built predicate means.

  /**
   * The value the predicate for (tf, te) gives a filter value a and an entity
   * value b: some item of b satisfies the item predicate when te is an
   * IEnumerable<T>, otherwise b itself does.
   */
  function Meaning(tf: Ty, te: Ty, c: ComparisonType, a: Value, b: Value): Value
    decreases RangeRank(tf), 1
  {
    if GetItemTypeIfIEnumerable(te).Some? then
      if b.Items? then Bool(exists i | 0 <= i < |b.items| :: Truthy(ItemMeaning(tf, EntityOperand(te), c, a, b.items[i])))
      else Null
    else ItemMeaning(tf, te, c, a, b)
  }

  /**
   * The predicate on one entity value x: every set bound of a range filter
   * holds (ExactValue == x, MaxValue >= x, MinValue <= x, whatever c is);
   * x is in a collection filter; or the comparison itself.
   */
  function ItemMeaning(tf: Ty, te: Ty, c: ComparisonType, a: Value, x: Value): Value
    decreases RangeRank(tf), 0
  {
    if RangeDefinition(tf).Some? then
      var t := RangeArgument(tf);
      Bool(WithinBound(t, te, ExactValueName, ComparisonType.Equal, a, x)
        && WithinBound(t, te, MaxValueName, ComparisonType.GreaterThanOrEqual, a, x)
        && WithinBound(t, te, MinValueName, ComparisonType.LessThanOrEqual, a, x))
    else if GetItemTypeIfICollection(tf).Some? then ContainsValue(a, x)
    else Compare(c, a, x)
  }

  /** A bound of a range filter value a admits x: it is unset, or the predicate for (T?, te) holds of (bound, x). */
  predicate WithinBound(t: Ty, te: Ty, bound: string, c: ComparisonType, a: Value, x: Value)
    decreases 0, 2
  {
    NullableIsNotRangeOrCollection(t);
    var v := ReadMember(a, PropertyAccess(bound, NullableOf(t)));
    v == Null || Truthy(Meaning(NullableOf(t), te, c, v, x))
  }

  /** The ids of a set of nodes are all below lo. */
  predicate IdsBelow(s: set<Expr>, lo: nat) {
    forall x | x in s :: x.id < lo
  }

  /**
   * Substituting a and b for the two parameters of a predicate, where a and b
   * declare nothing and mention only older nodes, evaluates to the predicate
   * applied to their values.
   */
  lemma SubstituteEval(pred: Expr, lo: nat, hi: nat, a: Expr, b: Expr, n: nat, env: Env)
    requires IsPredicate(pred, lo, hi)
    requires WellFormed(a) && WellFormed(b) && IsValueExpression(a) && IsValueExpression(b)
    requires Binds(a) == {} && Binds(b) == {}
    requires IdsBelow(ParamsOf(a), lo) && IdsBelow(ParamsOf(b), lo) && IdsBelow(env.Keys, lo)
    ensures Eval(SubstituteParameters(pred, a, b, n).e, env) == Apply2(pred, Eval(a, env), Eval(b, env))
  {
    var q0, q1 := pred.params[0], pred.params[1];
    ReplaceInPairLambda(pred, LambdaKind, q0, a, n);
    var b1 := Replace(pred.body, AnyKind, q0, a, n);
    ReplaceFootprint(pred.body, AnyKind, q0, a, n);
    var p1 := Replace(pred, LambdaKind, q0, a, n);
    assert p1.e.params[1] == q1 && p1.e.body == b1.e;
    ReplaceInPairLambda(p1.e, LambdaKind, q1, b, p1.next);
    var vb := Eval(b, env);
    ReplaceEval(b1.e, q1, b, p1.next, env);
    var env1 := env[q1 := vb];
    ReplaceEval(pred.body, q0, a, n, env1);
    EvalFrame(a, env1, env);
    var va := Eval(a, env);
    EvalFrame(pred.body, env1[q0 := va], map[q0 := va][q1 := vb]);
  }

  /** Off the range case, a built predicate means what Meaning says. */
  lemma BuildMeaningOffRange(tf: Ty, te: Ty, c: ComparisonType, n: nat)
    requires RangeDefinition(tf).None?
    ensures var r := BuildPredicateExpression(tf, te, c, n);
      r.Success? ==> forall a, b :: Apply2(r.value.e, a, b) == Meaning(tf, te, c, a, b)
  {
    var r := BuildPredicateExpression(tf, te, c, n);
    if r.Success? {
      var pred := BuildItemPredicate(tf, te, c, n).value;
      ItemMeaningOffRange(tf, te, c, n);
      if GetItemTypeIfIEnumerable(te).Some? {
        BuildItemIsPredicate(tf, te, c, n);
        AnyMeaning(pred, tf, te, c, n);
      }
    }
  }

  /** Wrapping an item predicate in Any gives Meaning for an enumerable entity type. */
  lemma AnyMeaning(pred: Built, tf: Ty, te: Ty, c: ComparisonType, n: nat)
    requires IsPredicate(pred.e, n, pred.next) && GetItemTypeIfIEnumerable(te).Some?
    requires forall a, x :: Apply2(pred.e, a, x) == ItemMeaning(tf, EntityOperand(te), c, a, x)
    ensures var r := CreateAnyMethodCallExpression(pred.e, te, pred.next);
      r.Success? ==> forall a, b :: Apply2(r.value.e, a, b) == Meaning(tf, te, c, a, b)
  {
    CreateAnyMeaning(pred.e, te, n, pred.next);
  }

  /** A single-value or Contains predicate means the comparison or the membership. */
  lemma ItemMeaningOffRange(tf: Ty, te: Ty, c: ComparisonType, n: nat)
    requires RangeDefinition(tf).None? && CanBuild(tf, te, c)
    ensures var r := BuildItemPredicate(tf, te, c, n);
      r.Success? ==> forall a, x :: Apply2(r.value.e, a, x) == ItemMeaning(tf, EntityOperand(te), c, a, x)
  {
    if GetItemTypeIfICollection(tf).None? {
      SingleValueMeaning(tf, EntityOperand(te), c, n);
    }
  }

  /** A successful nullable comparison is the OrElse over a predicate for (T?, the entity type) that means Meaning. */
  lemma NullableComparisonMeaningParts(fp: Expr, ep: Expr, bound: string, t: Ty, c: ComparisonType, n: nat)
    returns (pred: Built)
    requires ep.Parameter?
    ensures var r := CreateNullableComparisonPredicate(fp, ep, bound, t, c, n);
      r.Success? ==>
        IsPredicate(pred.e, n + 3, pred.next) && r.value == NullableComparisonOf(pred.e, fp, ep, bound, t, n, pred.next)
        && forall a, b :: Apply2(pred.e, a, b) == Meaning(NullableOf(t), ep.ty, c, a, b)
  {
    NullableIsNotRangeOrCollection(t);
    pred := NullableComparisonParts(fp, ep, bound, t, c, n);
    BuildMeaningOffRange(NullableOf(t), ep.ty, c, n + 3);
  }

  /** The nullable comparison on (R, x) holds when the bound of R is unset or the predicate holds of (bound, x). */
  lemma OrElseMeaning(pred: Expr, fp: Expr, ep: Expr, bound: string, t: Ty, n: nat, m: nat, R: Value, x: Value)
    requires IsPredicate(pred, n + 3, m) && fp.Parameter? && ep.Parameter? && fp.id < n && ep.id < n && fp != ep
    ensures var v := ReadMember(R, PropertyAccess(bound, NullableOf(t)));
      Eval(NullableComparisonOf(pred, fp, ep, bound, t, n, m).e, map[fp := R][ep := x])
        == Bool(v == Null || Truthy(Apply2(pred, v, x)))
  {
    var env := map[fp := R][ep := x];
    var sub := BoundAccess(fp, bound, t, n);
    assert ParamsOf(fp) == {fp} && Binds(fp) == {};
    assert ParamsOf(sub) == {fp} && Binds(sub) == {};
    assert Eval(sub, env) == ReadMember(R, PropertyAccess(bound, NullableOf(t)));
    assert env.Keys == {fp, ep};
    assert ParamsOf(ep) == {ep} && Binds(ep) == {};
    SubstituteEval(pred, n + 3, m, sub, ep, m, env);
    var body := SubstituteParameters(pred, sub, ep, m);
    assert Eval(body.e, env) == Apply2(pred, Eval(sub, env), x);
    var isNull := BoundIsNull(sub, n + 1);
    assert Truthy(Eval(isNull, env)) <==> Eval(sub, env) == Null;
  }

  lemma NullableComparisonMeaning(fp: Expr, ep: Expr, bound: string, t: Ty, c: ComparisonType, n: nat)
    requires fp.Parameter? && ep.Parameter? && fp.id < n && ep.id < n && fp != ep
    ensures var r := CreateNullableComparisonPredicate(fp, ep, bound, t, c, n);
      r.Success? ==>
        forall R, x :: Eval(r.value.e, map[fp := R][ep := x]) == Bool(WithinBound(t, ep.ty, bound, c, R, x))
  {
    var r := CreateNullableComparisonPredicate(fp, ep, bound, t, c, n);
    if r.Success? {
      var pred := NullableComparisonMeaningParts(fp, ep, bound, t, c, n);
      forall R, x ensures Eval(r.value.e, map[fp := R][ep := x]) == Bool(WithinBound(t, ep.ty, bound, c, R, x)) {
        OrElseMeaning(pred.e, fp, ep, bound, t, n, pred.next, R, x);
      }
    }
  }

  /** A successful range predicate is made of three nullable comparisons, each meaning its bound check. */
  lemma RangeMeaningParts(tf: Ty, te: Ty, range: Ty, n: nat) returns (exact: Built, max: Built, min: Built)
    ensures var r := BuildRangePredicateExpression(tf, te, range, n);
      var t := FirstGenericArgument(range);
      var fp, ep := Parameter(n, tf, ""), Parameter(n + 1, te, "");
      r.Success? ==>
        r.value == RangeLambdaOf(fp, ep, exact, max, min)
        && (forall R, x :: Eval(exact.e, map[fp := R][ep := x]) == Bool(WithinBound(t, te, ExactValueName, ComparisonType.Equal, R, x)))
        && (forall R, x :: Eval(max.e, map[fp := R][ep := x]) == Bool(WithinBound(t, te, MaxValueName, ComparisonType.GreaterThanOrEqual, R, x)))
        && (forall R, x :: Eval(min.e, map[fp := R][ep := x]) == Bool(WithinBound(t, te, MinValueName, ComparisonType.LessThanOrEqual, R, x)))
  {
    var t := FirstGenericArgument(range);
    var fp := Parameter(n, tf, "");
    var ep := Parameter(n + 1, te, "");
    var rx := CreateNullableComparisonPredicate(fp, ep, ExactValueName, t, ComparisonType.Equal, n + 2);
    exact, max, min := Built(fp, 0), Built(fp, 0), Built(fp, 0);
    if rx.Success? {
      exact := rx.value;
      NullableComparisonMeaning(fp, ep, ExactValueName, t, ComparisonType.Equal, n + 2);
      var rM := CreateNullableComparisonPredicate(fp, ep, MaxValueName, t, ComparisonType.GreaterThanOrEqual, exact.next);
      if rM.Success? {
        max := rM.value;
        NullableComparisonMeaning(fp, ep, MaxValueName, t, ComparisonType.GreaterThanOrEqual, exact.next);
        var rm := CreateNullableComparisonPredicate(fp, ep, MinValueName, t, ComparisonType.LessThanOrEqual, max.next);
        if rm.Success? {
          min := rm.value;
          NullableComparisonMeaning(fp, ep, MinValueName, t, ComparisonType.LessThanOrEqual, max.next);
        }
      }
    }
  }

  lemma RangeLambdaMeaning(tf: Ty, te: Ty, t: Ty, exact: Built, max: Built, min: Built, n: nat)
    requires var fp, ep := Parameter(n, tf, ""), Parameter(n + 1, te, "");
      (forall R, x :: Eval(exact.e, map[fp := R][ep := x]) == Bool(WithinBound(t, te, ExactValueName, ComparisonType.Equal, R, x)))
      && (forall R, x :: Eval(max.e, map[fp := R][ep := x]) == Bool(WithinBound(t, te, MaxValueName, ComparisonType.GreaterThanOrEqual, R, x)))
      && (forall R, x :: Eval(min.e, map[fp := R][ep := x]) == Bool(WithinBound(t, te, MinValueName, ComparisonType.LessThanOrEqual, R, x)))
    ensures var r := RangeLambdaOf(Parameter(n, tf, ""), Parameter(n + 1, te, ""), exact, max, min);
      forall R, x :: Apply2(r.e, R, x) ==
        Bool(WithinBound(t, te, ExactValueName, ComparisonType.Equal, R, x)
          && WithinBound(t, te, MaxValueName, ComparisonType.GreaterThanOrEqual, R, x)
          && WithinBound(t, te, MinValueName, ComparisonType.LessThanOrEqual, R, x))
  {
    var fp, ep := Parameter(n, tf, ""), Parameter(n + 1, te, "");
    var r := RangeLambdaOf(fp, ep, exact, max, min);
    forall R, x ensures Apply2(r.e, R, x) ==
        Bool(WithinBound(t, te, ExactValueName, ComparisonType.Equal, R, x)
          && WithinBound(t, te, MaxValueName, ComparisonType.GreaterThanOrEqual, R, x)
          && WithinBound(t, te, MinValueName, ComparisonType.LessThanOrEqual, R, x))
    {
      var env := map[fp := R][ep := x];
      var bounds := Binary(min.next, AndAlso, max.e, min.e, None, false, None);
      assert r.e.body == Binary(min.next + 1, AndAlso, exact.e, bounds, None, false, None);
      assert Apply2(r.e, R, x) == Eval(r.e.body, env);
      assert Eval(bounds, env) == Apply(AndAlso, Eval(max.e, env), Eval(min.e, env));
      assert Eval(r.e.body, env) == Apply(AndAlso, Eval(exact.e, env), Eval(bounds, env));
    }
  }

  /** The range predicate: every set bound admits the entity value, with inclusive bounds. */
  lemma RangeMeaning(tf: Ty, te: Ty, range: Ty, c: ComparisonType, n: nat)
    requires RangeDefinition(tf) == Some(range)
    ensures var r := BuildRangePredicateExpression(tf, te, range, n);
      r.Success? ==> forall a, x :: Apply2(r.value.e, a, x) == ItemMeaning(tf, te, c, a, x)
  {
    var r := BuildRangePredicateExpression(tf, te, range, n);
    if r.Success? {
      var exact, max, min := RangeMeaningParts(tf, te, range, n);
      RangeLambdaMeaning(tf, te, FirstGenericArgument(range), exact, max, min, n);
    }
  }

  /**
   * Every successful build means Meaning, except a range filter compared with
   * a collection entity, which the build as written never completes.
   */
  lemma BuildMeaning(tf: Ty, te: Ty, c: ComparisonType, n: nat)
    requires !(RangeDefinition(tf).Some? && GetItemTypeIfIEnumerable(te).Some?)
    ensures var r := BuildPredicateExpression(tf, te, c, n);
      r.Success? ==> forall a, b :: Apply2(r.value.e, a, b) == Meaning(tf, te, c, a, b)
  {
    var range := RangeDefinition(tf);
    if range.Some? {
      RangeMeaning(tf, te, range.value, c, n);
    } else {
      BuildMeaningOffRange(tf, te, c, n);
    }
  }

  // ---------------------------------------------------------------------------
  // When a build succeeds, and how it fails.

  /** A Nullable<T> wraps a value type, as the runtime demands. */
  predicate NullableArgIsValue(t: Ty) {
    IsInheritsFrom(t, NullableDefinition) ==> GetNotNullableType(t).flags.isValueType
  }

  /** Comparable types and a declared comparison always give a single-value predicate. */
  lemma SingleValueSucceeds(tf: Ty, te: Ty, c: ComparisonType, n: nat)
    requires CanCompareDirectly(tf, te, c) && !c.Undeclared? && NullableArgIsValue(tf) && NullableArgIsValue(te)
    ensures var r := BuildForSingleValueTypes(tf, te, c, n);
      r.Success? && r.value.Some?
  {
    ComparabilityIgnoresLifting(tf, te, c);
  }

  /**
   * Off the range case, once CanBuild holds, the build fails only with an
   * ArgumentException, and it succeeds for a declared comparison over
   * well-formed types whose Contains accepts the entity type.
   */
  lemma BuildOffRangeOutcome(tf: Ty, te: Ty, c: ComparisonType, n: nat)
    requires RangeDefinition(tf).None? && CanBuild(tf, te, c)
    ensures var r := BuildPredicateExpression(tf, te, c, n);
      r.Failure? ==> r.error.InvalidArgument?
    ensures var filterItem := GetItemTypeIfICollection(tf);
      !c.Undeclared? && NullableArgIsValue(tf) && NullableArgIsValue(EntityOperand(te)) && ReferenceCollection(te)
      && (filterItem.Some? ==> AcceptsArgument(filterItem.value, EntityOperand(te))) ==>
        BuildPredicateExpression(tf, te, c, n).Success?
  {
    ItemOffRangeOutcome(tf, te, c, n);
    var pred := BuildItemPredicate(tf, te, c, n);
    if pred.Success? && GetItemTypeIfIEnumerable(te).Some? {
      assert pred.value.e.params[1].ty == EntityOperand(te);
    }
  }

  /** The item predicate off the range case: the same outcomes as the whole build. */
  lemma ItemOffRangeOutcome(tf: Ty, te: Ty, c: ComparisonType, n: nat)
    requires RangeDefinition(tf).None? && CanBuild(tf, te, c)
    ensures var r := BuildItemPredicate(tf, te, c, n);
      r.Failure? ==> r.error.InvalidArgument?
    ensures var filterItem := GetItemTypeIfICollection(tf);
      !c.Undeclared? && NullableArgIsValue(tf) && NullableArgIsValue(EntityOperand(te))
      && (filterItem.Some? ==> AcceptsArgument(filterItem.value, EntityOperand(te))) ==>
        BuildItemPredicate(tf, te, c, n).Success?
  {
    var filterItem := GetItemTypeIfICollection(tf);
    var r := BuildItemPredicate(tf, te, c, n);
    if filterItem.None? {
      var single := BuildForSingleValueTypes(tf, EntityOperand(te), c, n);
      assert FilterOperand(tf) == tf;
      assert CanCompareDirectly(tf, EntityOperand(te), c);
      assert r == (if single.Failure? then Failure(single.error) else Success(single.value.value));
      if !c.Undeclared? && NullableArgIsValue(tf) && NullableArgIsValue(EntityOperand(te)) {
        SingleValueSucceeds(tf, EntityOperand(te), c, n);
      }
    } else {
      assert r == CreateContainsMethodCallExpression(tf, filterItem.value, EntityOperand(te), n);
    }
  }

  /** The comparison of one bound: it fails only with an ArgumentException, and succeeds over well-formed types. */
  lemma NullableComparisonOutcome(fp: Expr, ep: Expr, bound: string, t: Ty, c: ComparisonType, n: nat)
    requires ep.Parameter? && CanBuild(NullableOf(t), ep.ty, c)
    ensures var r := CreateNullableComparisonPredicate(fp, ep, bound, t, c, n);
      r.Failure? ==> r.error.InvalidArgument?
    ensures t.flags.isValueType && !c.Undeclared? && ReferenceCollection(ep.ty) ==>
      CreateNullableComparisonPredicate(fp, ep, bound, t, c, n).Success?
  {
    NullableIsNotRangeOrCollection(t);
    NullableOfIsNullable(t);
    BuildOffRangeOutcome(NullableOf(t), ep.ty, c, n + 3);
  }

  /**
   * The range predicate fails only with an ArgumentException once its bounds
   * can be ordered against the entity type, and then succeeds for a value type.
   */
  lemma RangeOutcome(tf: Ty, te: Ty, range: Ty, n: nat)
    requires CanBuild(NullableOf(FirstGenericArgument(range)), te, ComparisonType.GreaterThanOrEqual)
    ensures var r := BuildRangePredicateExpression(tf, te, range, n);
      r.Failure? ==> r.error.InvalidArgument?
    ensures FirstGenericArgument(range).flags.isValueType && ReferenceCollection(te) ==>
      BuildRangePredicateExpression(tf, te, range, n).Success?
  {
    var t := FirstGenericArgument(range);
    var fp := Parameter(n, tf, "");
    var ep := Parameter(n + 1, te, "");
    NullableIsNotRangeOrCollection(t);
    EqualityIsWeakest(NullableOf(t), EntityOperand(te), ComparisonType.GreaterThanOrEqual);
    OrderingsAgree(NullableOf(t), EntityOperand(te), ComparisonType.GreaterThanOrEqual, ComparisonType.LessThanOrEqual);
    NullableComparisonOutcome(fp, ep, ExactValueName, t, ComparisonType.Equal, n + 2);
    var rx := CreateNullableComparisonPredicate(fp, ep, ExactValueName, t, ComparisonType.Equal, n + 2);
    if rx.Success? {
      NullableComparisonOutcome(fp, ep, MaxValueName, t, ComparisonType.GreaterThanOrEqual, rx.value.next);
      var rM := CreateNullableComparisonPredicate(fp, ep, MaxValueName, t, ComparisonType.GreaterThanOrEqual, rx.value.next);
      if rM.Success? {
        NullableComparisonOutcome(fp, ep, MinValueName, t, ComparisonType.LessThanOrEqual, rM.value.next);
      }
    }
  }

  /** Every as-written build that throws throws an InvalidOperationException or an ArgumentException. */
  lemma BuildFailureKinds(tf: Ty, te: Ty, c: ComparisonType, n: nat)
    ensures var r := BuildPredicateExpression(tf, te, c, n);
      r.Failure? ==> r.error.InvalidOperation? || r.error.InvalidArgument?
  {
    if CanBuild(tf, te, c) {
      var range := RangeDefinition(tf);
      if range.Some? {
        RangeFailureKinds(tf, te, range.value, n);
      } else {
        BuildOffRangeOutcome(tf, te, c, n);
      }
    }
  }

  /** A range predicate that throws throws what one of its bound comparisons throws. */
  lemma RangeFailureKinds(tf: Ty, te: Ty, range: Ty, n: nat)
    ensures var r := BuildRangePredicateExpression(tf, te, range, n);
      r.Failure? ==> r.error.InvalidOperation? || r.error.InvalidArgument?
  {
    var t := FirstGenericArgument(range);
    var fp := Parameter(n, tf, "");
    var ep := Parameter(n + 1, te, "");
    BoundFailureKinds(fp, ep, ExactValueName, t, ComparisonType.Equal, n + 2);
    var rx := CreateNullableComparisonPredicate(fp, ep, ExactValueName, t, ComparisonType.Equal, n + 2);
    if rx.Success? {
      BoundFailureKinds(fp, ep, MaxValueName, t, ComparisonType.GreaterThanOrEqual, rx.value.next);
      var rM := CreateNullableComparisonPredicate(fp, ep, MaxValueName, t, ComparisonType.GreaterThanOrEqual, rx.value.next);
      if rM.Success? {
        BoundFailureKinds(fp, ep, MinValueName, t, ComparisonType.LessThanOrEqual, rM.value.next);
      }
    }
  }

  /** The comparison of one bound throws what the build for (T?, the entity type) throws. */
  lemma BoundFailureKinds(fp: Expr, ep: Expr, bound: string, t: Ty, c: ComparisonType, n: nat)
    requires ep.Parameter?
    ensures var r := CreateNullableComparisonPredicate(fp, ep, bound, t, c, n);
      r.Failure? ==> r.error.InvalidOperation? || r.error.InvalidArgument?
  {
    NullableIsNotRangeOrCollection(t);
    if CanBuild(NullableOf(t), ep.ty, c) {
      BuildOffRangeOutcome(NullableOf(t), ep.ty, c, n + 3);
    }
  }

  /**
   * The inputs whose as-written build completes once CanBuild holds: off the
   * range case, an entity type that is not a value-type collection, with a
   * collection filter whose Contains accepts the entity item type (and any
   * other filter); a range filter whose bounds can be ordered against an
   * entity type that is not a collection.
   */
  predicate BuildsCleanly(tf: Ty, te: Ty) {
    if RangeDefinition(tf).None? then
      ReferenceCollection(te)
      && (GetItemTypeIfICollection(tf).Some? ==> AcceptsArgument(GetItemTypeIfICollection(tf).value, EntityOperand(te)))
    else
      GetItemTypeIfIEnumerable(te).None? && CanBuild(NullableOf(RangeArgument(tf)), te, ComparisonType.GreaterThanOrEqual)
  }

  /** Over well-formed types, the as-written build of such inputs succeeds. */
  lemma CleanBuildSucceeds(tf: Ty, te: Ty, c: ComparisonType, n: nat)
    ensures CanBuild(tf, te, c) && WellFormedTypes(tf, te, c) && BuildsCleanly(tf, te) ==>
      BuildPredicateExpression(tf, te, c, n).Success?
  {
    if CanBuild(tf, te, c) && WellFormedTypes(tf, te, c) && BuildsCleanly(tf, te) {
      var range := RangeDefinition(tf);
      if range.Some? {
        RangeOutcome(tf, te, range.value, n);
      } else {
        BuildOffRangeOutcome(tf, te, c, n);
      }
    }
  }

  // ---------------------------------------------------------------------------
  // The provider as evidently intended.

  /**
   * CanBuildPredicateExpression as the build needs it: a range filter needs
   * its bounds ordered against the entity item type whatever the comparison
   * (the Max and Min bounds use >= and <=), a collection filter needs
   * ICollection<T>.Contains to accept the entity item type, and a collection
   * entity must be a reference type for the Any call.
   */
  function CorrectedCanBuild(tf: Ty, te: Ty, c: ComparisonType): (r: bool)
    ensures GetItemTypeIfICollection(tf).Some? && !c.Equal? ==> !r
    ensures RangeDefinition(tf).None? && r ==> CanBuild(tf, te, c)
  {
    var filterItem := GetItemTypeIfICollection(tf);
    var entityType := EntityOperand(te);
    if !ReferenceCollection(te) then false
    else if filterItem.Some? && !c.Equal? then false
    else if RangeDefinition(tf).Some? then
      CanBuild(NullableOf(RangeArgument(tf)), entityType, ComparisonType.GreaterThanOrEqual) && ReferenceCollection(entityType)
    else if filterItem.Some? then
      AcceptsArgument(filterItem.value, entityType) && CanCompareDirectly(filterItem.value, entityType, c)
    else CanCompareDirectly(tf, entityType, c)
  }

  /**
   * BuildPredicateExpression as evidently intended: refused exactly where
   * CorrectedCanBuild says no, and a range filter is compared with each item
   * of a collection entity rather than with the collection itself.
   */
  function CorrectedBuild(tf: Ty, te: Ty, c: ComparisonType, n: nat): (r: Result<Built>)
    ensures !CorrectedCanBuild(tf, te, c) ==> r == Failure(InvalidOperation)
    ensures r.Success? ==> HasParameterTypes(r.value.e, tf, te) && r.value.next > n
  {
    if !CorrectedCanBuild(tf, te, c) then Failure(InvalidOperation)
    else if RangeDefinition(tf).Some? then
      var pred :- BuildRangePredicateExpression(tf, EntityOperand(te), RangeDefinition(tf).value, n);
      if GetItemTypeIfIEnumerable(te).Some? then CreateAnyMethodCallExpression(pred.e, te, pred.next)
      else Success(pred)
    else BuildPredicateExpression(tf, te, c, n)
  }

  /** Off the range case, and where Contains accepts the entity type, the two builds are the same. */
  lemma CorrectedBuildAgrees(tf: Ty, te: Ty, c: ComparisonType, n: nat)
    requires RangeDefinition(tf).None? && CorrectedCanBuild(tf, te, c)
    ensures CorrectedBuild(tf, te, c, n) == BuildPredicateExpression(tf, te, c, n)
  {
  }

  /** Every corrected build is a predicate of fresh nodes. */
  lemma CorrectedBuildIsPredicate(tf: Ty, te: Ty, c: ComparisonType, n: nat)
    ensures var r := CorrectedBuild(tf, te, c, n);
      r.Success? ==> IsPredicate(r.value.e, n, r.value.next)
  {
    var r := CorrectedBuild(tf, te, c, n);
    if r.Success? {
      var range := RangeDefinition(tf);
      if range.Some? {
        RangeIsPredicate(tf, EntityOperand(te), range.value, n);
        if GetItemTypeIfIEnumerable(te).Some? {
          var pred := BuildRangePredicateExpression(tf, EntityOperand(te), range.value, n).value;
          CreateAnyMeaning(pred.e, te, n, pred.next);
        }
      } else {
        BuildIsPredicate(tf, te, c, n);
      }
    }
  }

  /** Every corrected build means Meaning, for every filter and entity value. */
  lemma CorrectedBuildMeaning(tf: Ty, te: Ty, c: ComparisonType, n: nat)
    ensures var r := CorrectedBuild(tf, te, c, n);
      r.Success? ==> forall a, b :: Apply2(r.value.e, a, b) == Meaning(tf, te, c, a, b)
  {
    var r := CorrectedBuild(tf, te, c, n);
    if r.Success? {
      var range := RangeDefinition(tf);
      if range.Some? {
        RangeMeaning(tf, EntityOperand(te), range.value, c, n);
        if GetItemTypeIfIEnumerable(te).Some? {
          var pred := BuildRangePredicateExpression(tf, EntityOperand(te), range.value, n).value;
          RangeIsPredicate(tf, EntityOperand(te), range.value, n);
          AnyMeaning(pred, tf, te, c, n);
        }
      } else {
        BuildMeaningOffRange(tf, te, c, n);
      }
    }
  }

  /** The corrected build throws InvalidOperationException exactly when CorrectedCanBuild says no. */
  lemma CorrectedBuildRejects(tf: Ty, te: Ty, c: ComparisonType, n: nat)
    ensures CorrectedBuild(tf, te, c, n) == Failure(InvalidOperation) <==> !CorrectedCanBuild(tf, te, c)
  {
    if CorrectedCanBuild(tf, te, c) {
      CorrectedBuildOutcome(tf, te, c, n);
    }
  }

  /**
   * Once CorrectedCanBuild holds, the corrected build fails only with an
   * ArgumentException, and it succeeds for a declared comparison (any
   * comparison, for a range filter) over well-formed types.
   */
  lemma CorrectedBuildOutcome(tf: Ty, te: Ty, c: ComparisonType, n: nat)
    requires CorrectedCanBuild(tf, te, c)
    ensures var r := CorrectedBuild(tf, te, c, n);
      r.Failure? ==> r.error.InvalidArgument?
    ensures WellFormedTypes(tf, te, c) ==> CorrectedBuild(tf, te, c, n).Success?
  {
    var range := RangeDefinition(tf);
    if range.Some? {
      RangeOutcome(tf, EntityOperand(te), range.value, n);
    } else {
      BuildOffRangeOutcome(tf, te, c, n);
    }
  }

  /**
   * What the runtime guarantees of the types involved: Nullable<T> wraps a
   * value type, the T of a range filter is a value type, and a comparison
   * other than a range's is a declared one.
   */
  predicate WellFormedTypes(tf: Ty, te: Ty, c: ComparisonType) {
    NullableArgIsValue(tf) && NullableArgIsValue(EntityOperand(te))
    && (RangeDefinition(tf).Some? ==> RangeArgument(tf).flags.isValueType)
    && (RangeDefinition(tf).None? ==> !c.Undeclared?)
  }
}
