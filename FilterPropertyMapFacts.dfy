/**
 * What the conditions of a property map mean: the expression a map builds
 * for a filter, applied to an entity, is the predicate on the two property
 * values, or the null test; and the shape guarantees that let the
 * expression builder put conditions side by side under one parameter.
 */
module FilterPropertyMapFacts {
  import opened Wrappers
  import opened Types
  import opened Expressions
  import opened ExpressionUpdateExtensions
  import opened ExpressionReplacer
  import opened PredicateProvider
  import opened FilterPropertyMap

  /** A chain of property reads evaluates member by member from the parameter's value. */
  lemma {:induction false} ChainEval(p: Expr, path: seq<MemberRef>, n: nat, env: Env)
    requires p.Parameter? && p in env
    ensures Eval(Chain(p, path, n), env) == ReadPath(env[p], path)
    decreases |path|
  {
    if path != [] {
      ChainEval(p, path[..|path| - 1], n, env);
    }
  }

  /** A chain accessor reads the member path from its argument. */
  lemma AccessorReadsPath(t: Ty, name: string, path: seq<MemberRef>, n: nat, v: Value)
    ensures Apply1(Accessor(t, name, path, n).e, v) == ReadPath(v, path)
  {
    var a := Accessor(t, name, path, n).e;
    ChainEval(a.params[0], path, n, map[a.params[0] := v]);
  }

  /** A chain of property reads mentions only the node it starts from and declares nothing. */
  lemma {:induction false} ChainFootprint(p: Expr, path: seq<MemberRef>, n: nat)
    requires p.Parameter?
    ensures WellFormed(Chain(p, path, n)) && Binds(Chain(p, path, n)) == {} && ParamsOf(Chain(p, path, n)) == {p}
    decreases |path|
  {
    if path != [] {
      ChainFootprint(p, path[..|path| - 1], n);
    }
  }

  /** Every chain accessor of at least one member is a closed property lambda. */
  lemma AccessorIsClosed(t: Ty, name: string, path: seq<MemberRef>, n: nat)
    requires path != []
    ensures IsClosedAccessor(Accessor(t, name, path, n).e)
  {
    ChainFootprint(Parameter(n + |path|, t, name), path, n);
  }

  predicate PropertyReads(path: seq<MemberRef>) {
    forall i | 0 <= i < |path| :: path[i].PropertyAccess?
  }

  /**
   * GetFilterValue's NullReferenceException handling: once a property on
   * the way reads null, the whole path reads null.
   */
  lemma {:induction false} NullOnTheWayReadsNull(v: Value, path: seq<MemberRef>, i: nat)
    requires PropertyReads(path) && i <= |path|
    requires ReadPath(v, path[..i]) == Null
    ensures ReadPath(v, path) == Null
    decreases |path|
  {
    if i < |path| {
      assert path[..|path| - 1][..i] == path[..i];
      NullOnTheWayReadsNull(v, path[..|path| - 1], i);
      assert path[|path| - 1].PropertyAccess?;
    } else {
      assert path[..i] == path;
    }
  }

  /**
   * The null condition applied to the entity property: true exactly for the
   * entities whose property is null; the body reads only the entity
   * property's parameter and declares nothing.
   */
  lemma NullFullCondition(ep: Expr, t: Ty, n: nat, entity: Value)
    requires IsClosedAccessor(ep)
    ensures var c := NullCondition(t, n);
      var r := GetFullCondition(ep, c.e, c.next).e;
      Apply1(r, entity) == Bool(Apply1(ep, entity) == Null)
      && WellFormed(r.body) && Binds(r.body) == {} && ParamsOf(r.body) <= {ep.params[0]}
  {
    var c := NullCondition(t, n);
    var P := c.e.params[0];
    var m := c.next;
    ReplaceInUnaryLambda(c.e, LambdaKind, P, ep.body, m);
    var B := Replace(c.e.body, AnyKind, P, ep.body, m);
    var u := c.e.body.left;
    assert Replace(u.operand, AnyKind, P, ep.body, m) == Built(ep.body, m);
    var ub := UpdateUnary(u, ep.body, m);
    assert ReplaceInUnary(u, P, ep.body, m) == ub;
    assert Replace(u, AnyKind, P, ep.body, m) == ub;
    var k := c.e.body.right;
    assert Replace(k, AnyKind, P, ep.body, ub.next) == Built(k, ub.next);
    assert ReplaceOpt(None, LambdaKind, P, ep.body, ub.next) == BuiltOpt(None, ub.next);
    assert ReplaceInBinary(c.e.body, P, ep.body, m) == UpdateBinary(c.e.body, ub.e, None, k, ub.next);
    assert B == UpdateBinary(c.e.body, ub.e, None, k, ub.next);
    assert ParamsOf(B.e) == ParamsOf(ep.body);
    assert Binds(B.e) == {};
    var E := map[ep.params[0] := entity];
    assert Eval(B.e, E) == Apply(BinaryOp.Equal, Eval(ep.body, E), Null);
  }

  /**
   * The predicate with the filter value substituted, applied to the entity
   * property: the predicate of the filter value and the property value; the
   * body mentions only the predicate's nodes and the entity property's
   * parameter, and declares only the predicate's.
   */
  lemma PredicateFullCondition(ep: Expr, pred: Expr, v: Value, n: nat, entity: Value)
    requires IsClosedAccessor(ep) && IsPair(pred) && PredicateAvoids(pred, ep.params[0])
    ensures var c := ReplacePredicateFilterParameter(pred, v, n);
      var r := GetFullCondition(ep, c.e, c.next).e;
      Apply1(r, entity) == Apply2(pred, v, Apply1(ep, entity))
      && WellFormed(r.body) && ParamsOf(r.body) <= ParamsOf(pred.body) + {ep.params[0]} && Binds(r.body) <= Binds(pred.body)
  {
    var q0, q1 := pred.params[0], pred.params[1];
    var k := Constant(n, v, q0.ty);
    var b1 := Replace(pred.body, AnyKind, q0, k, n + 1);
    ReplaceFootprint(pred.body, AnyKind, q0, k, n + 1);
    var c := ReplacePredicateFilterParameter(pred, v, n);
    assert c.e.params[0] == q1 && c.e.body == b1.e;
    ReplaceInUnaryLambda(c.e, LambdaKind, q1, ep.body, c.next);
    ReplaceFootprint(b1.e, AnyKind, q1, ep.body, c.next);
    var E := map[ep.params[0] := entity];
    var X := Eval(ep.body, E);
    ReplaceEval(b1.e, q1, ep.body, c.next, E);
    ReplaceEval(pred.body, q0, k, n + 1, E[q1 := X]);
    EvalFrame(pred.body, E[q1 := X][q0 := v], map[q0 := v][q1 := X]);
  }

  /**
   * BuildConditionExpression against ConditionMeaning: for every entity the
   * built condition evaluates to what ConditionMeaning says.
   */
  lemma BuiltConditionMeaning(s: MapState, filter: Value, n: nat, entity: Value)
    requires Hygienic(s)
    requires BuildCondition(s, filter, n).Success?
    ensures Apply1(BuildCondition(s, filter, n).value.e, entity) == ConditionMeaning(s, filter, entity)
  {
    var v := GetFilterValue(s, filter);
    if PropertyIsNull(v) {
      NullFullCondition(s.entityProperty, s.entityPropertyType, n, entity);
    } else {
      PredicateFullCondition(s.entityProperty, s.predicateLambda.value, v, n, entity);
    }
  }

  /** The built condition accepts as its parameter any node the map's predicate avoids. */
  lemma BuiltConditionAccepts(s: MapState, filter: Value, n: nat, x: Expr)
    requires Hygienic(s) && Admits(s, x)
    requires BuildCondition(s, filter, n).Success?
    ensures AcceptsParameter(BuildCondition(s, filter, n).value.e, x)
  {
    var v := GetFilterValue(s, filter);
    if PropertyIsNull(v) {
      NullFullCondition(s.entityProperty, s.entityPropertyType, n, Null);
    } else {
      PredicateFullCondition(s.entityProperty, s.predicateLambda.value, v, n, Null);
    }
  }

  /**
   * A map set to FilterByNull, given a filter whose value is null or empty
   * (and can be cast), selects exactly the entities whose property is null.
   */
  lemma FilterByNullSelectsNullProperties(s: MapState, filter: Value, n: nat, entity: Value)
    requires Hygienic(s) && !s.ignoreNullValues && s.predicateLambda.Some? && filter != Null
    requires PropertyIsNull(GetFilterValue(s, filter)) && !UnboxFails(s.filterPropertyType, GetFilterValue(s, filter))
    ensures BuildCondition(s, filter, n).Success?
    ensures Truthy(Apply1(BuildCondition(s, filter, n).value.e, entity)) <==> Apply1(s.entityProperty, entity) == Null
  {
    BuiltConditionMeaning(s, filter, n, entity);
  }

  /**
   * With a value that is neither null nor empty, the condition is the
   * predicate on the filter value and the entity's property value, whatever
   * the null-value setting.
   */
  lemma ValueConditionIsPredicate(s: MapState, filter: Value, n: nat, entity: Value)
    requires Hygienic(s) && s.predicateLambda.Some? && filter != Null
    requires !PropertyIsNull(GetFilterValue(s, filter))
    ensures BuildCondition(s, filter, n).Success?
    ensures Apply1(BuildCondition(s, filter, n).value.e, entity)
         == Apply2(s.predicateLambda.value, GetFilterValue(s, filter), Apply1(s.entityProperty, entity))
  {
    BuiltConditionMeaning(s, filter, n, entity);
  }
}
