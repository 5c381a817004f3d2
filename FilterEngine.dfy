/**
 * FilterEngine: builds the predicate of a filter from the definition
 * registered in a configuration for the (filter type, entity type) pair.
 * The engine holds its configuration and nothing else; it only looks the
 * pair up and hands the filter to the definition it finds.
 */
module FilterEngine {
  import opened Wrappers
  import opened Types
  import opened Expressions
  import opened FilterExpressionBuilder
  import opened FilterExpressionBuilderFacts
  import opened FilterConfiguration

  class FilterEngine {
    /** The readonly _configuration. */
    const configuration: FilterConfiguration

    constructor (configuration: FilterConfiguration)
      ensures this.configuration == configuration
    {
      this.configuration := configuration;
    }

    /**
     * BuildExpression<TFilter, TEntity>(filter): FilterNotMappedException,
     * naming both types, for a pair with no definition; otherwise what the
     * pair's definition builds for the filter. The configuration itself is
     * only read: the catalog is the same afterwards, and only the table of
     * the definition used may change, as its own BuildExpression changes it.
     */
    method BuildExpression(filterType: Ty, entityType: Ty, filter: Value) returns (r: Result<Expr>)
      requires configuration.Valid()
      modifies configuration.Definitions()
      ensures configuration.Valid() && configuration.Contents() == old(configuration.Contents())
      ensures configuration.GetFilter(filterType, entityType).None? ==>
        r == Failure(FilterNotMapped(filterType.name, entityType.name))
        && forall k | k in configuration.filters :: configuration.filters[k].TableValue() == old(configuration.filters[k].TableValue())
      ensures configuration.GetFilter(filterType, entityType).Some? ==>
        var b := configuration.GetFilter(filterType, entityType).value;
        b.BuildsExpression(filter, r)
        && forall k | k in configuration.filters && k != (filterType, entityType) ::
             configuration.filters[k].TableValue() == old(configuration.filters[k].TableValue())
    {
      var definition := configuration.GetFilter(filterType, entityType);
      if definition.None? {
        return Failure(FilterNotMapped(filterType.name, entityType.name));
      }
      r := BuildWith((filterType, entityType), filter);
    }

    /** The registered definition of key builds the expression; the other definitions are untouched. */
    method BuildWith(key: Key, filter: Value) returns (r: Result<Expr>)
      requires configuration.Valid() && key in configuration.filters
      modifies configuration.filters[key]
      ensures configuration.Valid()
      ensures configuration.filters[key].BuildsExpression(filter, r)
      ensures forall k | k in configuration.filters && k != key ::
        configuration.filters[k].TableValue() == old(configuration.filters[k].TableValue())
    {
      var b := configuration.filters[key];
      r := b.BuildExpression(filter);
      forall k | k in configuration.filters && k != key
        ensures unchanged(configuration.filters[k]) && unchanged(configuration.filters[k].Maps())
      {
      }
      configuration.OthersStayValid(key);
    }
  }

  /**
   * Repeated calls of the engine for a pair and a non-null filter. The
   * first call builds from the table as created on first use; the second
   * reads the table the first left, the same maps with only the next free
   * id moved on, and never auto-maps again. When the first call's
   * auto-mapping completes, both throw, with the same exception, or both
   * build predicates that hold of exactly the same entities; when it
   * throws, the first call throws that exception and the second builds
   * from the maps made before it.
   */
  lemma RepeatedBuildsAgree(created: bool, ft: Ty, et: Ty, m: Mappings, filter: Value, next: nat, entity: Value)
    requires PropertiesAreRuntimeTypes(ft) && PropertiesAreRuntimeTypes(et)
    requires Orderly(Initialized(created, ft, et, m).mappings) && filter != Null
    ensures var first := Initialized(created, ft, et, m);
      var second := Initialized(true, ft, et, first.mappings.(next := next));
      var r1 := BuildResult(Entries(first.mappings), filter, et, first.mappings.next);
      var r2 := BuildResult(Entries(second.mappings), filter, et, second.mappings.next);
      second == Filled(first.mappings.(next := next), Pass)
      && (first.outcome.Pass? ==>
            (r1.Failure? <==> r2.Failure?)
            && (r1.Failure? && r2.Failure? ==> r1.error == r2.error)
            && (r1.Success? && r2.Success? ==> (Truthy(Apply1(r1.value.e, entity)) <==> Truthy(Apply1(r2.value.e, entity)))))
      && (r2.Failure? <==> exists i | 0 <= i < |Entries(first.mappings)| :: Throws(Entries(first.mappings)[i], filter))
      && (r2.Success? ==> (Truthy(Apply1(r2.value.e, entity)) <==> forall i | 0 <= i < |Entries(first.mappings)| :: Holds(Entries(first.mappings)[i], filter, entity)))
  {
    var first := Initialized(created, ft, et, m).mappings;
    assert Entries(Initialized(true, ft, et, first.(next := next)).mappings) == Entries(first);
    OrderlyEntries(first);
    BuildResultMeaning(Entries(first), filter, et, first.next, entity);
    BuildResultMeaning(Entries(first), filter, et, next, entity);
  }
}
