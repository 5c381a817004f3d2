/**
 * FilterPropertyMapFactory<TFilter, TEntity>: creates the property maps of
 * one filter definition, each owned by that definition so that chained
 * Map and Ignore calls on a map reach the builder that holds it.
 */
module FilterPropertyMapFactory {
  import opened Wrappers
  import opened Types
  import opened Expressions
  import opened FilterPropertyMap

  class FilterPropertyMapFactory {
    /** The filter definition every created map is handed. */
    const definition: object

    /** The constructor once its argument is checked; the check is in NewFilterPropertyMapFactory. */
    constructor (definition: object)
      ensures this.definition == definition
    {
      this.definition := definition;
    }

    /**
     * CreateFilterPropertyMap<TFilterProperty, TEntityProperty>: a fresh map
     * of exactly the given accessors and predicate, owned by the factory's
     * definition, with the default null policy (null filter values ignored);
     * the map's constructor checks the accessors.
     */
    method CreateFilterPropertyMap(filterPropertyType: Ty, entityPropertyType: Ty,
                                   filterProperty: Option<Expr>, entityProperty: Option<Expr>, predicateLambda: Option<Expr>)
      returns (r: Result<FilterPropertyMap>)
      requires filterProperty.Some? ==> IsLambda1(filterProperty.value)
      requires entityProperty.Some? ==> IsLambda1(entityProperty.value)
      requires predicateLambda.Some? ==> IsLambda2(predicateLambda.value)
      ensures filterProperty.None? ==> r == Failure(ArgumentNull("filterProperty"))
      ensures filterProperty.Some? && entityProperty.None? ==> r == Failure(ArgumentNull("entityProperty"))
      ensures r.Success? <==> (filterProperty.Some? && entityProperty.Some?
                               && IsPropertyLambda(filterProperty.value) && IsPropertyLambda(entityProperty.value))
      ensures r.Failure? && filterProperty.Some? && entityProperty.Some? ==> r.error.InvalidArgument?
      ensures r.Success? ==> var m := r.value;
        fresh(m) && m.Valid() && m.definition == definition
        && m.State() == MapState(filterPropertyType, entityPropertyType, filterProperty.value, entityProperty.value, predicateLambda, true)
    {
      r := NewFilterPropertyMap(filterPropertyType, entityPropertyType, filterProperty, entityProperty,
                                Some(definition), predicateLambda, true);
    }
  }

  /** The constructor with its check: ArgumentNullException for a null definition. */
  method NewFilterPropertyMapFactory(definition: Option<object>) returns (r: Result<FilterPropertyMapFactory>)
    ensures definition.None? ==> r == Failure(ArgumentNull("definition"))
    ensures definition.Some? ==> r.Success? && fresh(r.value) && r.value.definition == definition.value
  {
    if definition.None? {
      return Failure(ArgumentNull("definition"));
    }
    var f := new FilterPropertyMapFactory(definition.value);
    r := Success(f);
  }
}
