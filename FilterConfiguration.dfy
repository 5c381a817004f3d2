/**
 * FilterConfiguration: the catalog of filter definitions, one
 * FilterExpressionBuilder per (filter type, entity type) pair, kept in a
 * dictionary that enumerates its values in the order the pairs were added.
 */
module FilterConfiguration {
  import opened Wrappers
  import opened Types
  import opened FilterExpressionBuilder

  /** The dictionary key: KeyValuePair<Type, Type> of the filter type and the entity type. */
  type Key = (Ty, Ty)

  /** The dictionary as a value: its keys in insertion order and the builder under each key. */
  datatype Catalog = Catalog(pairs: seq<Key>, filters: map<Key, FilterExpressionBuilder>)

  /** The key order lists every key of the dictionary exactly once. */
  predicate WellFormed(c: Catalog) {
    (forall i, j | 0 <= i < j < |c.pairs| :: c.pairs[i] != c.pairs[j])
    && (forall k | k in c.filters :: k in c.pairs)
    && (forall i | 0 <= i < |c.pairs| :: c.pairs[i] in c.filters)
  }

  /** The empty catalog of a new configuration. */
  const EmptyCatalog := Catalog([], map[])

  /** GetFilter's lookup: the builder under the key, or null when the pair was never registered. */
  function Lookup(c: Catalog, key: Key): (r: Option<FilterExpressionBuilder>)
    ensures WellFormed(c) ==> (r.Some? <==> key in c.pairs)
    ensures r.Some? ==> key in c.filters && r.value == c.filters[key]
  {
    if key in c.filters then Some(c.filters[key]) else None
  }

  /** CreateFilter's effect on the dictionary: a builder is added only under a key that is not there yet. */
  function Register(c: Catalog, key: Key, b: FilterExpressionBuilder): (r: Catalog)
    ensures WellFormed(c) ==> WellFormed(r)
    ensures key in r.filters && c.filters.Keys <= r.filters.Keys
    ensures forall k | k in c.filters :: r.filters[k] == c.filters[k]
  {
    if key in c.filters then c else Catalog(c.pairs + [key], c.filters[key := b])
  }

  /** GetFilters: the builders in the order of their keys. */
  function Builders(c: Catalog): (r: seq<FilterExpressionBuilder>)
    requires WellFormed(c)
    ensures |r| == |c.pairs|
    ensures forall i | 0 <= i < |r| :: r[i] == c.filters[c.pairs[i]]
  {
    seq(|c.pairs|, i requires 0 <= i < |c.pairs| => c.filters[c.pairs[i]])
  }

  /** AssertConfigurationIsValid over all builders: the first exception thrown, or none. */
  function FirstFailure(os: seq<Outcome>): (r: Outcome)
    ensures r == Pass <==> forall i | 0 <= i < |os| :: os[i] == Pass
    ensures r.Fail? ==> exists i | 0 <= i < |os| :: os[i] == r && forall j | 0 <= j < i :: os[j] == Pass
  {
    if os == [] then Pass
    else if os[0].Fail? then os[0]
    else
      var r := FirstFailure(os[1..]);
      assert forall i | 1 <= i < |os| :: os[i] == os[1..][i - 1];
      r
  }

  /** The first exception is the one of the first builder that fails. */
  lemma FirstFailureAt(os: seq<Outcome>, i: nat)
    requires i < |os| && os[i].Fail? && forall j | 0 <= j < i :: os[j] == Pass
    ensures FirstFailure(os) == os[i]
  {
  }

  /** Registering a pair that is already there changes nothing: CreateFilter is idempotent. */
  lemma RegisterIsIdempotent(c: Catalog, key: Key, b: FilterExpressionBuilder, b': FilterExpressionBuilder)
    ensures Register(Register(c, key, b), key, b') == Register(c, key, b)
  {
  }

  /** A new pair grows the catalog by exactly one key; a known pair does not grow it. */
  lemma RegisterGrowsByOne(c: Catalog, key: Key, b: FilterExpressionBuilder)
    requires WellFormed(c)
    ensures |Register(c, key, b).pairs| == |c.pairs| + (if key in c.pairs then 0 else 1)
    ensures key in c.pairs ==> Register(c, key, b) == c
  {
  }

  /** After CreateFilter, GetFilter finds the builder it returned; other pairs are looked up as before. */
  lemma LookupAfterRegister(c: Catalog, key: Key, b: FilterExpressionBuilder, other: Key)
    ensures Lookup(Register(c, key, b), key) == Some(if key in c.filters then c.filters[key] else b)
    ensures other != key ==> Lookup(Register(c, key, b), other) == Lookup(c, other)
  {
  }

  /** GetFilters after a new pair: the builders as before, then the new one. */
  lemma BuildersAfterRegister(c: Catalog, key: Key, b: FilterExpressionBuilder)
    requires WellFormed(c)
    ensures Builders(Register(c, key, b)) == Builders(c) + (if key in c.filters then [] else [b])
  {
    if key !in c.filters {
      var r := Register(c, key, b);
      assert forall i | 0 <= i < |c.pairs| :: r.pairs[i] == c.pairs[i] && c.pairs[i] != key;
    }
  }

  /** GetFilters yields exactly the dictionary's values. */
  lemma BuildersAreTheValues(c: Catalog)
    requires WellFormed(c)
    ensures forall b :: b in Builders(c) <==> b in c.filters.Values
  {
    var r := Builders(c);
    forall b | b in c.filters.Values
      ensures b in r
    {
      var k :| k in c.filters && c.filters[k] == b;
      var i :| 0 <= i < |c.pairs| && c.pairs[i] == k;
      assert r[i] == b;
    }
  }

  class FilterConfiguration {
    var pairs: seq<Key>
    var filters: map<Key, FilterExpressionBuilder>

    /** The dictionary as a value. */
    function Contents(): Catalog
      reads this
    {
      Catalog(pairs, filters)
    }

    /** The registered builders. */
    function Definitions(): set<FilterExpressionBuilder>
      reads this
    {
      filters.Values
    }

    /** The property maps the registered builders hold. */
    function DefinitionMaps(): set<object>
      reads this, Definitions()
    {
      set k, m | k in filters && m in filters[k].Maps() :: m
    }

    /**
     * The catalog is well formed and every builder is valid and was made
     * for the pair it is registered under.
     */
    predicate Valid()
      reads this, Definitions(), DefinitionMaps()
    {
      WellFormed(Contents())
      && forall k | k in filters :: filters[k].filterType == k.0 && filters[k].entityType == k.1 && filters[k].Valid()
    }

    /** A new configuration has no filters. */
    constructor ()
      ensures Valid() && Contents() == EmptyCatalog
    {
      pairs := [];
      filters := map[];
    }

    /** GetFilter<TFilter, TEntity>: the registered builder of the pair, or null; nothing is registered. */
    function GetFilter(filterType: Ty, entityType: Ty): (r: Option<FilterExpressionBuilder>)
      reads this
    {
      Lookup(Contents(), (filterType, entityType))
    }

    /**
     * CreateFilter<TFilter, TEntity>: the builder of the pair, made and
     * registered first if the pair is new; the builders already registered
     * are left as they are.
     */
    method CreateFilter(filterType: Ty, entityType: Ty) returns (r: FilterExpressionBuilder)
      requires Valid()
      requires PropertiesAreRuntimeTypes(filterType) && PropertiesAreRuntimeTypes(entityType)
      modifies this
      ensures Valid() && Contents() == Register(old(Contents()), (filterType, entityType), r)
      ensures GetFilter(filterType, entityType) == Some(r)
      ensures (filterType, entityType) in old(filters) ==> r == old(filters[(filterType, entityType)])
      ensures (filterType, entityType) !in old(filters) ==>
        fresh(r) && r.filterType == filterType && r.entityType == entityType
        && !r.mappingsCreated && r.keys == [] && r.table == map[] && r.nextId == 0 && r.propertyMapFactory == null
    {
      var key := (filterType, entityType);
      if key !in filters {
        var b := new FilterExpressionBuilder(filterType, entityType);
        AddDefinition(b);
      }
      r := filters[key];
    }

    /** _filters.Add: a new builder goes in under its own pair, after the pairs already there. */
    method AddDefinition(b: FilterExpressionBuilder)
      requires Valid() && b.Valid() && (b.filterType, b.entityType) !in filters
      modifies this
      ensures Valid() && Contents() == Register(old(Contents()), (b.filterType, b.entityType), b)
    {
      var key := (b.filterType, b.entityType);
      pairs := pairs + [key];
      filters := filters[key := b];
      assert Contents() == Register(old(Contents()), key, b);
      forall k | k in old(filters)
        ensures unchanged(old(filters[k])) && unchanged(old(filters[k]).Maps())
      {
      }
      RegisteredStaysValid(key);
    }

    /** After a new builder went in under key, and the others were left alone, the configuration is valid. */
    twostate lemma RegisteredStaysValid(key: Key)
      requires old(Valid()) && key !in old(filters) && key in filters
      requires pairs == old(pairs) + [key] && filters == old(filters)[key := filters[key]]
      requires filters[key].Valid() && filters[key].filterType == key.0 && filters[key].entityType == key.1
      requires forall k | k in old(filters) :: unchanged(old(filters[k])) && unchanged(old(filters[k]).Maps())
      ensures Valid()
    {
      assert Contents() == Register(old(Contents()), key, filters[key]);
      forall k | k in filters
        ensures filters[k].filterType == k.0 && filters[k].entityType == k.1 && filters[k].Valid()
      {
        if k != key {
          assert k in old(filters) && filters[k] == old(filters[k]);
          filters[k].StaysValid();
        }
      }
    }

    /** GetFilters: every registered builder, once each, in the order the pairs were registered. */
    method GetFilters() returns (r: seq<FilterExpressionBuilder>)
      requires Valid()
      ensures r == Builders(Contents())
      ensures forall i, j | 0 <= i < j < |r| :: r[i] != r[j]
    {
      r := Builders(Contents());
      forall i, j | 0 <= i < j < |r|
        ensures r[i] != r[j]
      {
        assert pairs[i] != pairs[j];
      }
    }

    /**
     * AssertConfigurationIsValid: each builder's validation in turn, the
     * first exception ending the call; a builder that is validated may have
     * its table created as its own validation does, and what a validation
     * reports stays the same.
     */
    method AssertConfigurationIsValid() returns (r: Outcome)
      requires Valid()
      modifies Definitions()
      ensures Valid()
      ensures r == FirstFailure(old(Outcomes()))
      ensures Settled(pairs, old(States()), States())
    {
      ghost var st := States();
      ghost var os := Outcomes();
      OutcomesAgree();
      ghost var cur := st;
      var i := 0;
      while i < |pairs|
        invariant 0 <= i <= |pairs|
        invariant Valid() && Tracks(cur)
        invariant Progress(pairs, st, os, cur, i)
      {
        var o;
        o, cur := ValidateNext(i, st, os, cur);
        if o.Fail? {
          TrackedStates(cur);
          return o;
        }
        i := i + 1;
      }
      ProgressDone(pairs, st, os, cur);
      TrackedStates(cur);
      r := Pass;
    }

    /** What Outcomes reports is the validation of each key's builder in its state. */
    lemma OutcomesAgree()
      requires Valid()
      ensures Progress(pairs, States(), Outcomes(), States(), 0)
    {
      KeysAreRuntimeTypes();
    }

    /** The tracked states are the builders' states. */
    lemma TrackedStates(cur: seq<TableState>)
      requires Valid() && Tracks(cur)
      ensures States() == cur
    {
    }

    /** cur holds the table state of the builder of each key, in the order of the keys. */
    predicate Tracks(cur: seq<TableState>)
      reads this, Definitions(), DefinitionMaps()
    {
      |cur| == |pairs| && forall j | 0 <= j < |pairs| :: pairs[j] in filters && filters[pairs[j]].TableValue() == cur[j]
    }

    /** The keys of a valid configuration are pairs of runtime types. */
    lemma KeysAreRuntimeTypes()
      requires Valid()
      ensures RuntimeKeys(pairs)
    {
      forall j | 0 <= j < |pairs|
        ensures PropertiesAreRuntimeTypes(pairs[j].0) && PropertiesAreRuntimeTypes(pairs[j].1)
      {
        assert filters[pairs[j]].Valid();
      }
    }

    /** One round of the loop of AssertConfigurationIsValid, stated as the progress it makes. */
    method ValidateNext(i: nat, ghost st: seq<TableState>, ghost os: seq<Outcome>, ghost cur: seq<TableState>)
      returns (o: Outcome, ghost cur': seq<TableState>)
      requires Valid() && Tracks(cur) && Progress(pairs, st, os, cur, i) && i < |pairs|
      modifies filters[pairs[i]]
      ensures Valid() && Tracks(cur')
      ensures o.Pass? ==> Progress(pairs, st, os, cur', i + 1)
      ensures o.Fail? ==> o == FirstFailure(os) && Settled(pairs, st, cur')
    {
      ghost var after;
      o, after := ValidateDefinition(i, cur);
      ProgressStep(pairs, st, os, cur, i, o, after);
      cur' := cur[i := after];
    }

    /** One step of AssertConfigurationIsValid: the validation of the i-th builder; the others are untouched. */
    method ValidateDefinition(i: nat, ghost cur: seq<TableState>) returns (o: Outcome, ghost after: TableState)
      requires Valid() && Tracks(cur) && i < |pairs|
      modifies filters[pairs[i]]
      ensures Valid() && Tracks(cur[i := after])
      ensures PropertiesAreRuntimeTypes(pairs[i].0) && PropertiesAreRuntimeTypes(pairs[i].1)
      ensures o == ValidationOf(pairs[i].0, pairs[i].1, cur[i]) && KeptOrInitialized(pairs[i].0, pairs[i].1, cur[i], after)
    {
      var b := filters[pairs[i]];
      o, after := Validate(b);
      forall k | k in filters && k != pairs[i]
        ensures unchanged(filters[k]) && unchanged(filters[k].Maps())
      {
      }
      OthersStayValid(pairs[i]);
      TracksUpdated(i, cur, after);
    }

    /** States that track every builder but the one at position i track all once that one's new state is put there. */
    lemma TracksUpdated(i: nat, cur: seq<TableState>, after: TableState)
      requires Valid() && i < |pairs| == |cur|
      requires filters[pairs[i]].TableValue() == after
      requires forall j | 0 <= j < |pairs| && pairs[j] != pairs[i] :: filters[pairs[j]].TableValue() == cur[j]
      ensures Tracks(cur[i := after])
    {
    }

    /**
     * After a step that changed only the builder under key, and left it
     * valid, the configuration is valid and the other builders' tables are
     * as they were.
     */
    twostate lemma OthersStayValid(key: Key)
      requires old(Valid()) && unchanged(this) && key in filters && filters[key].Valid()
      requires forall k | k in filters && k != key :: unchanged(filters[k]) && unchanged(filters[k].Maps())
      ensures Valid()
      ensures forall k | k in filters && k != key :: filters[k].TableValue() == old(filters[k].TableValue())
    {
      forall k | k in filters
        ensures filters[k].filterType == k.0 && filters[k].entityType == k.1 && filters[k].Valid()
      {
        if k != key {
          filters[k].StaysValid();
        }
      }
    }

    /** Each builder's table state, in the order of the keys. */
    function States(): (r: seq<TableState>)
      reads this, Definitions(), DefinitionMaps()
      requires Valid()
      ensures |r| == |pairs|
      ensures forall j | 0 <= j < |pairs| :: r[j] == filters[pairs[j]].TableValue()
    {
      StatesOf(Builders(Contents()))
    }

    /** Each builder's validation outcome, in the order of the keys. */
    function Outcomes(): (r: seq<Outcome>)
      reads this, Definitions(), DefinitionMaps()
      requires Valid()
      ensures |r| == |pairs|
    {
      OutcomesFrom(pairs, States())
    }
  }

  /** One builder's AssertConfigurationIsValid, stated on its table state. */
  method Validate(b: FilterExpressionBuilder) returns (o: Outcome, ghost after: TableState)
    requires b.Valid()
    modifies b
    ensures b.Valid() && after == b.TableValue()
    ensures o == ValidationOf(b.filterType, b.entityType, old(b.TableValue()))
    ensures KeptOrInitialized(b.filterType, b.entityType, old(b.TableValue()), after)
  {
    o := b.AssertConfigurationIsValid();
    after := b.TableValue();
  }

  /** Every filter and entity type of the keys has properties as the runtime makes them. */
  predicate RuntimeKeys(keys: seq<Key>) {
    forall j | 0 <= j < |keys| :: PropertiesAreRuntimeTypes(keys[j].0) && PropertiesAreRuntimeTypes(keys[j].1)
  }

  /** The table states of a sequence of builders. */
  function StatesOf(bs: seq<FilterExpressionBuilder>): (r: seq<TableState>)
    reads set b | b in bs, set b, m | b in bs && m in b.Maps() :: m
    ensures |r| == |bs|
    ensures forall i | 0 <= i < |bs| :: r[i] == bs[i].TableValue()
  {
    if bs == [] then [] else [bs[0].TableValue()] + StatesOf(bs[1..])
  }

  /** What each builder's validation reports, given the pair and the table state of each. */
  function OutcomesFrom(keys: seq<Key>, st: seq<TableState>): (r: seq<Outcome>)
    requires |keys| == |st| && RuntimeKeys(keys)
    ensures |r| == |keys|
    ensures forall j | 0 <= j < |keys| :: r[j] == ValidationOf(keys[j].0, keys[j].1, st[j])
  {
    seq(|keys|, j requires 0 <= j < |keys| => ValidationOf(keys[j].0, keys[j].1, st[j]))
  }

  /** The first i tables are kept or initialized and the others are as they were. */
  predicate ValidatedUpTo(keys: seq<Key>, before: seq<TableState>, now: seq<TableState>, i: nat)
    requires |keys| == |before| == |now| && RuntimeKeys(keys) && i <= |keys|
  {
    (forall j | 0 <= j < i :: KeptOrInitialized(keys[j].0, keys[j].1, before[j], now[j]))
    && forall j | i <= j < |keys| :: now[j] == before[j]
  }

  /**
   * Validation of the first i builders: each passed and kept or initialized
   * its table, and the later tables are as they were.
   */
  predicate Progress(keys: seq<Key>, st: seq<TableState>, os: seq<Outcome>, cur: seq<TableState>, i: nat) {
    |keys| == |st| == |os| == |cur| && RuntimeKeys(keys) && i <= |keys|
    && os == OutcomesFrom(keys, st)
    && ValidatedUpTo(keys, st, cur, i)
    && forall j | 0 <= j < i :: os[j] == Pass
  }

  /** Every table was kept or initialized. */
  predicate Settled(keys: seq<Key>, before: seq<TableState>, after: seq<TableState>) {
    |keys| == |before| == |after| && RuntimeKeys(keys)
    && forall j | 0 <= j < |keys| :: KeptOrInitialized(keys[j].0, keys[j].1, before[j], after[j])
  }

  /**
   * Validating the next builder either extends the progress by one, or
   * fails with the first failure of all and leaves every table kept or
   * initialized.
   */
  lemma ProgressStep(keys: seq<Key>, st: seq<TableState>, os: seq<Outcome>, cur: seq<TableState>, i: nat,
                     o: Outcome, after: TableState)
    requires Progress(keys, st, os, cur, i) && i < |keys|
    requires o == ValidationOf(keys[i].0, keys[i].1, cur[i]) && KeptOrInitialized(keys[i].0, keys[i].1, cur[i], after)
    ensures o.Pass? ==> Progress(keys, st, os, cur[i := after], i + 1)
    ensures o.Fail? ==> o == FirstFailure(os) && Settled(keys, st, cur[i := after])
  {
    var cur' := cur[i := after];
    assert ValidatedUpTo(keys, st, cur', i + 1);
    if o.Fail? {
      FirstFailureAt(os, i);
      SettledFrom(keys, st, cur', i + 1);
    }
  }

  /** Validating every builder without a failure passes and leaves every table kept or initialized. */
  lemma ProgressDone(keys: seq<Key>, st: seq<TableState>, os: seq<Outcome>, cur: seq<TableState>)
    requires Progress(keys, st, os, cur, |keys|)
    ensures FirstFailure(os) == Pass && Settled(keys, st, cur)
  {
    SettledFrom(keys, st, cur, |keys|);
  }

  /** A validated prefix with the rest untouched leaves every table kept or initialized. */
  lemma SettledFrom(keys: seq<Key>, before: seq<TableState>, after: seq<TableState>, i: nat)
    requires |keys| == |before| == |after| && RuntimeKeys(keys) && i <= |keys|
    requires ValidatedUpTo(keys, before, after, i)
    ensures Settled(keys, before, after)
  {
  }

  /**
   * A builder kept or initialized reports what it reported before, unless
   * its auto-mapping threw: then it reports on the partial table instead.
   */
  lemma SettledOutcomes(keys: seq<Key>, before: seq<TableState>, after: seq<TableState>)
    requires Settled(keys, before, after)
    ensures forall j | 0 <= j < |keys| && InitCompletes(keys[j].0, keys[j].1, before[j]) ::
      OutcomesFrom(keys, after)[j] == OutcomesFrom(keys, before)[j]
    ensures (forall j | 0 <= j < |keys| :: InitCompletes(keys[j].0, keys[j].1, before[j])) ==>
      OutcomesFrom(keys, after) == OutcomesFrom(keys, before)
  {
    var oa := OutcomesFrom(keys, after);
    var ob := OutcomesFrom(keys, before);
    forall j | 0 <= j < |keys| && InitCompletes(keys[j].0, keys[j].1, before[j])
      ensures oa[j] == ob[j]
    {
      ValidationIsStable(keys[j].0, keys[j].1, before[j], after[j]);
    }
  }
}
