/**
 * FilterPropertyMap<TFilter, TEntity, TFilterProperty, TEntityProperty>: one
 * filter property mapped onto one entity property, with the predicate that
 * compares their values and what a null filter value means.  From a filter
 * object it builds the condition Expression<Func<TEntity, bool>> that the
 * expression builder conjoins with the others.
 */
module FilterPropertyMap {
  import opened Wrappers
  import opened Types
  import opened Expressions
  import opened ExpressionUpdateExtensions
  import opened ExpressionReplacer
  import opened TypeUtils
  import opened PredicateProvider

  /** Expression<Func<T, R>>: a lambda over one parameter node. */
  predicate IsLambda1(lam: Expr) {
    lam.Lambda? && |lam.params| == 1 && lam.params[0].Parameter?
  }

  /** Expression<Func<T1, T2, bool>>: a lambda over two parameter nodes. */
  predicate IsLambda2(lam: Expr) {
    lam.Lambda? && |lam.params| == 2 && lam.params[0].Parameter? && lam.params[1].Parameter?
  }

  /** A property lambda the map accepts: one parameter and a member access as its body. */
  predicate IsPropertyLambda(lam: Expr) {
    IsLambda1(lam) && lam.body.Member?
  }

  /**
   * ValidatePropertyLambda: ArgumentNullException for a null lambda,
   * ArgumentException when the body is not a member access.
   */
  function ValidatePropertyLambda(value: Option<Expr>): (r: Outcome)
    requires value.Some? ==> IsLambda1(value.value)
    ensures r.Pass? <==> value.Some? && IsPropertyLambda(value.value)
    ensures value.None? ==> r == Fail(ArgumentNull("value"))
    ensures value.Some? && r.Fail? ==> r.error.InvalidArgument?
  {
    if value.None? then Fail(ArgumentNull("value"))
    else if !value.value.body.Member? then Fail(InvalidArgument(""))
    else Pass
  }

  /** IsEmptyEnumerable: an IEnumerable (a string is one) without a first element. */
  predicate IsEmptyEnumerable(v: Value) {
    v == Str([]) || v == Items([])
  }

  /** PropertyIsNull: the filter value is null or an empty enumerable. */
  predicate PropertyIsNull(v: Value) {
    v == Null || IsEmptyEnumerable(v)
  }

  /** The cast (TFilterProperty)value throws NullReferenceException: null unboxed into a non-nullable value type. */
  predicate UnboxFails(t: Ty, v: Value) {
    v == Null && t.flags.isValueType && !IsInheritsFrom(t, NullableDefinition)
  }

  /** A property chain read from the lambda's parameter alone, declaring nothing. */
  predicate IsClosedAccessor(lam: Expr) {
    IsPropertyLambda(lam) && WellFormed(lam.body) && Binds(lam.body) == {} && ParamsOf(lam.body) <= {lam.params[0]}
  }

  /**
   * The lambda entityProperty => entityProperty == null, over a parameter of
   * type TEntityProperty: the comparison is made on the value boxed to object.
   */
  function NullCondition(t: Ty, n: nat): (r: Built)
    ensures IsLambda1(r.e) && r.e.params[0].ty == t && r.next == n + 5
  {
    var p := Parameter(n, t, "entityProperty");
    var body := Binary(n + 1, BinaryOp.Equal, Unary(n + 2, Convert, p, ObjectType, None), Constant(n + 3, Null, ObjectType), None, false, None);
    Built(Lambda(n + 4, body, [p]), n + 5)
  }

  /**
   * ReplacePradicateFilterParameterWithActualValue: the predicate's first
   * parameter replaced, in its body, by a constant of the filter value, over
   * the predicate's second parameter.
   */
  function ReplacePredicateFilterParameter(pred: Expr, v: Value, n: nat): (r: Built)
    requires IsLambda2(pred)
    ensures IsLambda1(r.e) && r.e.params[0] == pred.params[1] && r.next > n
  {
    var c := Constant(n, v, pred.params[0].ty);
    var b := Replace(pred.body, AnyKind, pred.params[0], c, n + 1);
    Built(Lambda(b.next, b.e, [pred.params[1]]), b.next + 1)
  }

  /**
   * GetFullConditionFromPropertyCondition: the condition's parameter
   * replaced by the entity property's body, as a lambda over the entity
   * property's parameter.
   */
  function GetFullCondition(entityProperty: Expr, cond: Expr, n: nat): (r: Built)
    requires IsPropertyLambda(entityProperty) && IsLambda1(cond)
    ensures IsLambda1(r.e) && r.e.params[0] == entityProperty.params[0] && r.next > n
  {
    var full := Replace(cond, LambdaKind, cond.params[0], entityProperty.body, n);
    ReplaceInUnaryLambda(cond, LambdaKind, cond.params[0], entityProperty.body, n);
    Built(Lambda(full.next, full.e.body, [entityProperty.params[0]]), full.next + 1)
  }

  /** The member chain p.m1.m2...mk over a node p, the member nodes numbered from n. */
  function Chain(p: Expr, path: seq<MemberRef>, n: nat): (r: Expr)
    ensures path != [] ==> r.Member?
    decreases |path|
  {
    if path == [] then p
    else Member(n + |path| - 1, Some(Chain(p, path[..|path| - 1], n)), path[|path| - 1])
  }

  /** The lambda x => x.m1...mk over a parameter of type t named name: member ids from n, then the parameter and the lambda. */
  function Accessor(t: Ty, name: string, path: seq<MemberRef>, n: nat): (r: Built)
    ensures IsLambda1(r.e) && r.e.params[0] == Parameter(n + |path|, t, name) && r.next == n + |path| + 2
    ensures path != [] ==> IsPropertyLambda(r.e)
  {
    var p := Parameter(n + |path|, t, name);
    Built(Lambda(n + |path| + 1, Chain(p, path, n), [p]), n + |path| + 2)
  }

  /** Reading a member path from a value, member by member. */
  function ReadPath(v: Value, path: seq<MemberRef>): Value
    decreases |path|
  {
    if path == [] then v else ReadMember(ReadPath(v, path[..|path| - 1]), path[|path| - 1])
  }

  /** The fields of a property map as a value: what its conditions are built from. */
  datatype MapState = MapState(
    filterPropertyType: Ty,     // TFilterProperty
    entityPropertyType: Ty,     // TEntityProperty
    filterProperty: Expr,
    entityProperty: Expr,
    predicateLambda: Option<Expr>,
    ignoreNullValues: bool)

  /** The invariant of a property map: both property lambdas passed ValidatePropertyLambda. */
  predicate ValidState(s: MapState) {
    IsPropertyLambda(s.filterProperty) && IsPropertyLambda(s.entityProperty)
    && (s.predicateLambda.Some? ==> IsLambda2(s.predicateLambda.value))
  }

  /**
   * GetFilterValue: the filter property read from the filter; a null met on
   * the way (a NullReferenceException inside the compiled lambda) reads as null.
   */
  function GetFilterValue(s: MapState, filter: Value): Value {
    Apply1(s.filterProperty, filter)
  }

  /**
   * CanBuildConditionExpression: a filter and a predicate are needed; a map
   * that filters by null always builds, otherwise the filter value must be
   * neither null nor an empty enumerable.
   */
  predicate CanBuildCondition(s: MapState, filter: Value) {
    if filter == Null || s.predicateLambda.None? then false
    else if !s.ignoreNullValues then true
    else !PropertyIsNull(GetFilterValue(s, filter))
  }

  /**
   * BuildConditionExpression: the predicate with the filter value in place
   * of its first parameter, or entityProperty == null for a null or empty
   * filter value, applied to the entity property.
   */
  function BuildCondition(s: MapState, filter: Value, n: nat): (r: Result<Built>)
    requires ValidState(s)
    ensures filter == Null ==> r == Failure(ArgumentNull("filter"))
    ensures filter != Null && !CanBuildCondition(s, filter) ==> r == Failure(InvalidOperation)
    ensures filter != Null && CanBuildCondition(s, filter) ==>
      (r.Failure? <==> UnboxFails(s.filterPropertyType, GetFilterValue(s, filter)))
    ensures r.Failure? && filter != Null && CanBuildCondition(s, filter) ==> r.error == NullReference
    ensures r.Success? ==> IsLambda1(r.value.e) && r.value.e.params[0] == s.entityProperty.params[0] && r.value.next > n
  {
    if filter == Null then Failure(ArgumentNull("filter"))
    else if !CanBuildCondition(s, filter) then Failure(InvalidOperation)
    else
      var v := GetFilterValue(s, filter);
      if UnboxFails(s.filterPropertyType, v) then Failure(NullReference)
      else
        var cond := if PropertyIsNull(v) then NullCondition(s.entityPropertyType, n)
                    else ReplacePredicateFilterParameter(s.predicateLambda.value, v, n);
        Success(GetFullCondition(s.entityProperty, cond.e, cond.next))
  }

  /**
   * What the built condition says of an entity: its property is null, for a
   * null or empty filter value; otherwise the predicate holds of the filter
   * value and the entity's property value.
   */
  function ConditionMeaning(s: MapState, filter: Value, entity: Value): Value {
    var v := GetFilterValue(s, filter);
    var x := Apply1(s.entityProperty, entity);
    if PropertyIsNull(v) then Bool(x == Null)
    else if s.predicateLambda.Some? then Apply2(s.predicateLambda.value, v, x)
    else Null
  }

  /**
   * The names a condition must not capture: the entity property reads only
   * its own parameter, and the predicate is a pair lambda whose body neither
   * mentions nor declares that parameter and declares neither of its own.
   */
  predicate Hygienic(s: MapState) {
    ValidState(s) && IsClosedAccessor(s.entityProperty)
    && (s.predicateLambda.Some? ==> PredicateAvoids(s.predicateLambda.value, s.entityProperty.params[0]) && IsPair(s.predicateLambda.value))
  }

  /** The map's predicate neither mentions nor declares x. */
  predicate Admits(s: MapState, x: Expr) {
    s.predicateLambda.Some? ==> PredicateAvoids(s.predicateLambda.value, x)
  }

  class FilterPropertyMap {
    /** TFilterProperty and TEntityProperty, the value types of the two property lambdas. */
    const filterPropertyType: Ty
    const entityPropertyType: Ty
    var filterProperty: Expr
    var entityProperty: Expr
    var predicateLambda: Option<Expr>
    var ignoreNullValues: bool
    /** The filter definition (the expression builder) that Map and Ignore are handed on to. */
    const definition: object

    /** The map's fields as a value. */
    function State(): MapState
      reads this
    {
      MapState(filterPropertyType, entityPropertyType, filterProperty, entityProperty, predicateLambda, ignoreNullValues)
    }

    /** The class invariant: both property lambdas passed ValidatePropertyLambda. */
    predicate Valid()
      reads this
    {
      ValidState(State())
    }

    /** The constructor once its arguments are checked; the checks are in NewFilterPropertyMap. */
    constructor (filterPropertyType: Ty, entityPropertyType: Ty, filterProperty: Expr, entityProperty: Expr,
                 definition: object, predicateLambda: Option<Expr>, ignoreNullValues: bool)
      requires IsPropertyLambda(filterProperty) && IsPropertyLambda(entityProperty)
      requires predicateLambda.Some? ==> IsLambda2(predicateLambda.value)
      ensures Valid()
      ensures this.filterPropertyType == filterPropertyType && this.entityPropertyType == entityPropertyType
      ensures this.filterProperty == filterProperty && this.entityProperty == entityProperty
      ensures this.definition == definition && this.predicateLambda == predicateLambda && this.ignoreNullValues == ignoreNullValues
    {
      this.filterPropertyType := filterPropertyType;
      this.entityPropertyType := entityPropertyType;
      this.filterProperty := filterProperty;
      this.entityProperty := entityProperty;
      this.definition := definition;
      this.predicateLambda := predicateLambda;
      this.ignoreNullValues := ignoreNullValues;
    }

    /** The FilterProperty setter: validated, and nothing changes when validation throws. */
    method SetFilterProperty(value: Option<Expr>) returns (r: Outcome)
      requires Valid()
      requires value.Some? ==> IsLambda1(value.value)
      modifies this
      ensures Valid()
      ensures r == ValidatePropertyLambda(value)
      ensures filterProperty == (if r.Pass? then value.value else old(filterProperty))
      ensures entityProperty == old(entityProperty) && predicateLambda == old(predicateLambda) && ignoreNullValues == old(ignoreNullValues)
    {
      r := ValidatePropertyLambda(value);
      if r.Pass? {
        filterProperty := value.value;
      }
    }

    /** The EntityProperty setter: validated, and nothing changes when validation throws. */
    method SetEntityProperty(value: Option<Expr>) returns (r: Outcome)
      requires Valid()
      requires value.Some? ==> IsLambda1(value.value)
      modifies this
      ensures Valid()
      ensures r == ValidatePropertyLambda(value)
      ensures entityProperty == (if r.Pass? then value.value else old(entityProperty))
      ensures filterProperty == old(filterProperty) && predicateLambda == old(predicateLambda) && ignoreNullValues == old(ignoreNullValues)
    {
      r := ValidatePropertyLambda(value);
      if r.Pass? {
        entityProperty := value.value;
      }
    }

    /** UsePredicate: the predicate is replaced (null removes it) and the map itself is returned. */
    method UsePredicate(p: Option<Expr>) returns (r: FilterPropertyMap)
      requires Valid()
      requires p.Some? ==> IsLambda2(p.value)
      modifies this
      ensures Valid() && r == this
      ensures predicateLambda == p
      ensures filterProperty == old(filterProperty) && entityProperty == old(entityProperty) && ignoreNullValues == old(ignoreNullValues)
    {
      predicateLambda := p;
      r := this;
    }

    /** Ignore: UsePredicate(null), after which the map never contributes a condition. */
    method Ignore() returns (r: FilterPropertyMap)
      requires Valid()
      modifies this
      ensures Valid() && r == this
      ensures predicateLambda.None?
      ensures filterProperty == old(filterProperty) && entityProperty == old(entityProperty) && ignoreNullValues == old(ignoreNullValues)
      ensures forall filter :: !CanBuildConditionExpression(filter)
    {
      r := UsePredicate(None);
    }

    /** WhenNull: the same map, seen through its null-value configuration. */
    method WhenNull() returns (r: FilterPropertyMap)
      ensures r == this
    {
      r := this;
    }

    /** IgnoreProperty: a null or empty filter value contributes no condition. */
    method IgnoreProperty() returns (r: FilterPropertyMap)
      requires Valid()
      modifies this
      ensures Valid() && r == this
      ensures ignoreNullValues
      ensures filterProperty == old(filterProperty) && entityProperty == old(entityProperty) && predicateLambda == old(predicateLambda)
    {
      ignoreNullValues := true;
      r := this;
    }

    /** FilterByNull: a null or empty filter value selects the entities whose property is null. */
    method FilterByNull() returns (r: FilterPropertyMap)
      requires Valid()
      modifies this
      ensures Valid() && r == this
      ensures !ignoreNullValues
      ensures filterProperty == old(filterProperty) && entityProperty == old(entityProperty) && predicateLambda == old(predicateLambda)
    {
      ignoreNullValues := false;
      r := this;
    }

    predicate CanBuildConditionExpression(filter: Value)
      reads this
    {
      CanBuildCondition(State(), filter)
    }

    function BuildConditionExpression(filter: Value, n: nat): Result<Built>
      reads this
      requires Valid()
    {
      BuildCondition(State(), filter, n)
    }
  }

  /** A pair lambda whose well-formed body declares neither parameter and neither mentions nor declares x. */
  predicate PredicateAvoids(pred: Expr, x: Expr) {
    IsLambda2(pred) && WellFormed(pred.body)
    && pred.params[0] !in Binds(pred.body) && pred.params[1] !in Binds(pred.body)
    && x !in ParamsOf(pred.body) && x !in Binds(pred.body)
  }

  /**
   * A condition in which a parameter x of another condition can stand for
   * its own: a lambda whose body declares neither x nor its own parameter
   * and mentions x only if x is that parameter.
   */
  predicate AcceptsParameter(cond: Expr, x: Expr) {
    IsLambda1(cond) && WellFormed(cond.body) && cond.params[0] !in Binds(cond.body)
    && x !in Binds(cond.body) && (x in ParamsOf(cond.body) ==> x == cond.params[0])
  }

  /**
   * The constructor with its checks, in order: ArgumentNullException for a
   * null filter property, entity property or definition, then
   * ValidatePropertyLambda on each property lambda.
   */
  method NewFilterPropertyMap(filterPropertyType: Ty, entityPropertyType: Ty,
                              filterProperty: Option<Expr>, entityProperty: Option<Expr>, definition: Option<object>,
                              predicateLambda: Option<Expr>, ignoreNullValues: bool)
    returns (r: Result<FilterPropertyMap>)
    requires filterProperty.Some? ==> IsLambda1(filterProperty.value)
    requires entityProperty.Some? ==> IsLambda1(entityProperty.value)
    requires predicateLambda.Some? ==> IsLambda2(predicateLambda.value)
    ensures filterProperty.None? ==> r == Failure(ArgumentNull("filterProperty"))
    ensures filterProperty.Some? && entityProperty.None? ==> r == Failure(ArgumentNull("entityProperty"))
    ensures filterProperty.Some? && entityProperty.Some? && definition.None? ==> r == Failure(ArgumentNull("definition"))
    ensures r.Success? <==> (filterProperty.Some? && entityProperty.Some? && definition.Some?
                             && IsPropertyLambda(filterProperty.value) && IsPropertyLambda(entityProperty.value))
    ensures r.Failure? && filterProperty.Some? && entityProperty.Some? && definition.Some? ==> r.error.InvalidArgument?
    ensures r.Success? ==> var m := r.value;
      fresh(m) && m.Valid() && m.filterPropertyType == filterPropertyType && m.entityPropertyType == entityPropertyType
      && m.filterProperty == filterProperty.value && m.entityProperty == entityProperty.value
      && m.definition == definition.value && m.predicateLambda == predicateLambda && m.ignoreNullValues == ignoreNullValues
  {
    if filterProperty.None? {
      return Failure(ArgumentNull("filterProperty"));
    }
    if entityProperty.None? {
      return Failure(ArgumentNull("entityProperty"));
    }
    if definition.None? {
      return Failure(ArgumentNull("definition"));
    }
    var check := ValidatePropertyLambda(filterProperty);
    if check.Fail? {
      return Failure(check.error);
    }
    check := ValidatePropertyLambda(entityProperty);
    if check.Fail? {
      return Failure(check.error);
    }
    var m := new FilterPropertyMap(filterPropertyType, entityPropertyType, filterProperty.value, entityProperty.value,
                                   definition.value, predicateLambda, ignoreNullValues);
    r := Success(m);
  }
}
