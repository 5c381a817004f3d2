/**
 * InitializeFilter: loads filter definitions from ICreateFilter classes.
 * Initializer types are collected with Add, Exclude and AddFromAssemblyOf,
 * each list free of repeats; Apply runs, in the order they were added, the
 * added initializers that are not excluded and can be instantiated, each
 * against the stored configuration.
 *
 * What an initializer's CreateFilter does is user code; here it is given as
 * the pairs it registers with the configuration, in order.
 */
module InitializeFilter {
  import opened Wrappers
  import opened Types
  import opened FilterExpressionBuilder
  import opened FilterConfiguration

  /** typeof(ICreateFilter). */
  const ICreateFilterType := Ty("AutoFilter.Interfaces.ICreateFilter", [], false, InterfaceFlags, None, [], [])

  /** typeof(ICreateFilter).IsAssignableFrom(t): t is the interface or implements it. */
  predicate IsCreateFilter(t: Ty) {
    t == ICreateFilterType || ICreateFilterType in t.interfaces
  }

  /** The query of AddFromAssemblyOf: a non-abstract class that implements ICreateFilter. */
  predicate IsAssemblyInitializer(t: Ty) {
    IsCreateFilter(t) && t.flags.isClass && !t.flags.isAbstract
  }

  /**
   * The Where of Apply: not excluded, not an open generic definition, a
   * non-abstract class, with a parameterless constructor.
   */
  predicate IsRunnable(excluded: seq<Ty>, t: Ty) {
    t !in excluded && !t.isGenericDefinition && t.flags.isClass && !t.flags.isAbstract && t.flags.hasDefaultConstructor
  }

  /** No element occurs twice. */
  predicate NoDuplicates<T(==,!new)>(s: seq<T>) {
    forall i, j | 0 <= i < j < |s| :: s[i] != s[j]
  }

  /** Enumerable.Where: the elements that satisfy p, in their order. */
  function Where(s: seq<Ty>, p: Ty -> bool): (r: seq<Ty>)
    ensures |r| <= |s|
  {
    if s == [] then []
    else if p(s[0]) then [s[0]] + Where(s[1..], p)
    else Where(s[1..], p)
  }

  /** Where keeps exactly the elements that satisfy the predicate. */
  lemma {:induction false} WhereMembers(s: seq<Ty>, p: Ty -> bool)
    ensures forall t :: t in Where(s, p) <==> t in s && p(t)
    decreases |s|
  {
    if s != [] {
      WhereMembers(s[1..], p);
      assert forall t :: t in s <==> t == s[0] || t in s[1..];
    }
  }

  /** ICollection.Add after a Contains check: an element already there is not added again. */
  function AddAbsent<T(==,!new)>(s: seq<T>, x: T): (r: seq<T>)
    ensures x in r && forall y :: y in r <==> y in s || y == x
    ensures NoDuplicates(s) ==> NoDuplicates(r)
    ensures s <= r && |r| <= |s| + 1
  {
    if x in s then s else s + [x]
  }

  /** AddAbsent of each element in turn. */
  function AddAllAbsent<T(==,!new)>(s: seq<T>, xs: seq<T>): (r: seq<T>)
    ensures NoDuplicates(s) ==> NoDuplicates(r)
    ensures s <= r
    decreases |xs|
  {
    if xs == [] then s
    else AddAllAbsent(AddAbsent(s, xs[0]), xs[1..])
  }

  /** AddAllAbsent leaves exactly the elements of both sequences. */
  lemma {:induction false} AddAllAbsentMembers<T(!new)>(s: seq<T>, xs: seq<T>)
    ensures forall y :: y in AddAllAbsent(s, xs) <==> y in s || y in xs
    decreases |xs|
  {
    if xs != [] {
      AddAllAbsentMembers(AddAbsent(s, xs[0]), xs[1..]);
      assert forall y :: y in xs <==> y == xs[0] || y in xs[1..];
    }
  }

  /** The pairs a sequence of initializers register, one initializer after the other. */
  function Requests(initializers: seq<Ty>, creates: Ty -> seq<Key>): seq<Key> {
    if initializers == [] then []
    else creates(initializers[0]) + Requests(initializers[1..], creates)
  }

  /** The requests are exactly the pairs some initializer registers. */
  lemma {:induction false} RequestsMembers(initializers: seq<Ty>, creates: Ty -> seq<Key>)
    ensures forall k :: k in Requests(initializers, creates) <==> exists i | 0 <= i < |initializers| :: k in creates(initializers[i])
    decreases |initializers|
  {
    if initializers != [] {
      RequestsMembers(initializers[1..], creates);
      assert forall i | 1 <= i < |initializers| :: initializers[i] == initializers[1..][i - 1];
    }
  }

  /** The initializers Apply runs, given the added and the excluded ones: Where, then OfType<ICreateFilter>. */
  function Selected(added: seq<Ty>, excluded: seq<Ty>): seq<Ty> {
    Where(Where(added, t => IsRunnable(excluded, t)), IsCreateFilter)
  }

  /**
   * Apply runs exactly the added initializers that are runnable and
   * implement ICreateFilter; an excluded one never runs, whether it was
   * excluded before or after it was added.
   */
  lemma SelectedMembers(added: seq<Ty>, excluded: seq<Ty>, t: Ty)
    ensures t in Selected(added, excluded) <==> t in added && IsRunnable(excluded, t) && IsCreateFilter(t)
    ensures t in excluded ==> t !in Selected(added, excluded)
  {
    WhereMembers(added, u => IsRunnable(excluded, u));
    WhereMembers(Where(added, u => IsRunnable(excluded, u)), IsCreateFilter);
  }

  /** Where keeps the order: the selection of a longer list extends the selection of a shorter one. */
  lemma {:induction false} WhereAppend(s: seq<Ty>, t: seq<Ty>, p: Ty -> bool)
    ensures Where(s + t, p) == Where(s, p) + Where(t, p)
    decreases |s|
  {
    if s == [] {
      assert s + t == t;
    } else {
      assert (s + t)[1..] == s[1..] + t;
      WhereAppend(s[1..], t, p);
    }
  }

  /** Adding the elements of a + b is adding those of a, then those of b. */
  lemma {:induction false} AddAllAbsentAppend<T(!new)>(s: seq<T>, a: seq<T>, b: seq<T>)
    ensures AddAllAbsent(s, a + b) == AddAllAbsent(AddAllAbsent(s, a), b)
    decreases |a|
  {
    if a == [] {
      assert a + b == b;
    } else {
      assert (a + b)[1..] == a[1..] + b;
      AddAllAbsentAppend(AddAbsent(s, a[0]), a[1..], b);
    }
  }

  /** The requests of one more initializer are the requests so far, then its own. */
  lemma {:induction false} RequestsAppend(initializers: seq<Ty>, t: Ty, creates: Ty -> seq<Key>)
    ensures Requests(initializers + [t], creates) == Requests(initializers, creates) + creates(t)
    decreases |initializers|
  {
    if initializers == [] {
      assert Requests([t], creates) == creates(t) + Requests([], creates);
    } else {
      assert (initializers + [t])[1..] == initializers[1..] + [t];
      RequestsAppend(initializers[1..], t, creates);
    }
  }

  /** One more element of xs added. */
  lemma AddAllAbsentStep<T(!new)>(s: seq<T>, xs: seq<T>, i: nat)
    requires i < |xs|
    ensures AddAllAbsent(s, xs[..i + 1]) == AddAbsent(AddAllAbsent(s, xs[..i]), xs[i])
  {
    assert xs[..i + 1] == xs[..i] + [xs[i]];
    AddAllAbsentAppend(s, xs[..i], [xs[i]]);
  }

  /** The requests of one more initializer added: the requests so far added, then its own. */
  lemma RequestsStep(s: seq<Key>, initializers: seq<Ty>, i: nat, creates: Ty -> seq<Key>)
    requires i < |initializers|
    ensures AddAllAbsent(s, Requests(initializers[..i + 1], creates))
         == AddAllAbsent(AddAllAbsent(s, Requests(initializers[..i], creates)), creates(initializers[i]))
  {
    assert initializers[..i + 1] == initializers[..i] + [initializers[i]];
    RequestsAppend(initializers[..i], initializers[i], creates);
    AddAllAbsentAppend(s, Requests(initializers[..i], creates), creates(initializers[i]));
  }

  /** CreateFilter's registration adds the pair to the key order unless it is there. */
  lemma RegisterAddsAbsent(c: Catalog, key: Key, b: FilterExpressionBuilder)
    requires WellFormed(c)
    ensures Register(c, key, b).pairs == AddAbsent(c.pairs, key)
  {
  }

  /** The only key a registration can add is its own, under the builder it was given. */
  lemma RegisterNewKeys(c: Catalog, key: Key, b: FilterExpressionBuilder)
    ensures forall k | k in Register(c, key, b).filters && k !in c.filters :: k == key && Register(c, key, b).filters[k] == b
  {
  }

  /** Every key of f0 is still in f, under the same builder. */
  predicate KeepsBuilders(f0: map<Key, FilterExpressionBuilder>, f: map<Key, FilterExpressionBuilder>) {
    forall k | k in f0 :: k in f && f[k] == f0[k]
  }

  /** A registration keeps every builder that was there. */
  lemma RegisterKeepsBuilders(f0: map<Key, FilterExpressionBuilder>, c: Catalog, key: Key, b: FilterExpressionBuilder)
    requires KeepsBuilders(f0, c.filters)
    ensures KeepsBuilders(f0, Register(c, key, b).filters)
  {
  }

  /** The keys of the requests are pairs of runtime types. */
  predicate RuntimeRequests(initializers: seq<Ty>, creates: Ty -> seq<Key>) {
    forall i | 0 <= i < |initializers| :: RuntimeKeys(creates(initializers[i]))
  }

  class InitializeFilter {
    const config: FilterConfiguration
    /** _filterInitializers, in the order they were added. */
    var filterInitializers: seq<Ty>
    /** _excludedInitializers, in the order they were excluded. */
    var excludedInitializers: seq<Ty>

    /** Neither list holds a type twice. */
    predicate Valid()
      reads this
    {
      NoDuplicates(filterInitializers) && NoDuplicates(excludedInitializers)
    }

    /** InitializeFilter.On(config): a new initializer with both lists empty. */
    constructor On(config: FilterConfiguration)
      ensures Valid() && this.config == config
      ensures filterInitializers == [] && excludedInitializers == []
    {
      this.config := config;
      filterInitializers := [];
      excludedInitializers := [];
    }

    /** Add(type): the type is added unless it is already there; returns this. */
    method Add(t: Ty) returns (r: InitializeFilter)
      requires Valid()
      modifies this
      ensures Valid() && r == this
      ensures filterInitializers == AddAbsent(old(filterInitializers), t)
      ensures excludedInitializers == old(excludedInitializers)
    {
      if t !in filterInitializers {
        filterInitializers := filterInitializers + [t];
      }
      r := this;
    }

    /** Exclude(type): the type is excluded unless it is already; returns this. */
    method Exclude(t: Ty) returns (r: InitializeFilter)
      requires Valid()
      modifies this
      ensures Valid() && r == this
      ensures excludedInitializers == AddAbsent(old(excludedInitializers), t)
      ensures filterInitializers == old(filterInitializers)
    {
      if t !in excludedInitializers {
        excludedInitializers := excludedInitializers + [t];
      }
      r := this;
    }

    /**
     * AddFromAssemblyOf(type): Add of every non-abstract ICreateFilter class
     * among the types of the assembly, in their order; the assembly's types
     * are given.
     */
    method AddFromAssemblyOf(assemblyTypes: seq<Ty>) returns (r: InitializeFilter)
      requires Valid()
      modifies this
      ensures Valid() && r == this
      ensures filterInitializers == AddAllAbsent(old(filterInitializers), Where(assemblyTypes, IsAssemblyInitializer))
      ensures excludedInitializers == old(excludedInitializers)
    {
      var types := Where(assemblyTypes, IsAssemblyInitializer);
      var i := 0;
      while i < |types|
        invariant 0 <= i <= |types|
        invariant Valid() && excludedInitializers == old(excludedInitializers)
        invariant filterInitializers == AddAllAbsent(old(filterInitializers), types[..i])
      {
        AddAllAbsentStep(old(filterInitializers), types, i);
        var _ := Add(types[i]);
        i := i + 1;
      }
      assert types[..i] == types;
      r := this;
    }

    /**
     * Apply: runs each selected initializer once, in the order they were
     * added, against the stored configuration, and returns that
     * configuration. The configuration then has the pairs it had, followed
     * by each newly requested pair once, in the order of the requests; the
     * builders it had are kept and the new ones are fresh.
     */
    method Apply(creates: Ty -> seq<Key>) returns (r: FilterConfiguration)
      requires config.Valid()
      requires RuntimeRequests(Selected(filterInitializers, excludedInitializers), creates)
      modifies config
      ensures r == config && config.Valid()
      ensures config.pairs == AddAllAbsent(old(config.pairs), Requests(Selected(filterInitializers, excludedInitializers), creates))
      ensures forall k | k in old(config.filters) :: k in config.filters && config.filters[k] == old(config.filters[k])
      ensures forall k | k in config.filters && k !in old(config.filters) :: fresh(config.filters[k])
    {
      var instances := Selected(filterInitializers, excludedInitializers);
      var i := 0;
      while i < |instances|
        invariant 0 <= i <= |instances|
        invariant config.Valid()
        invariant config.pairs == AddAllAbsent(old(config.pairs), Requests(instances[..i], creates))
        invariant forall k | k in old(config.filters) :: k in config.filters && config.filters[k] == old(config.filters[k])
        invariant forall k | k in config.filters && k !in old(config.filters) :: fresh(config.filters[k])
      {
        RequestsStep(old(config.pairs), instances, i, creates);
        RunInitializer(creates(instances[i]));
        i := i + 1;
      }
      assert instances[..i] == instances;
      r := config;
    }

    /** One initializer's CreateFilter: CreateFilter on the configuration for each pair it registers. */
    method RunInitializer(requests: seq<Key>)
      requires config.Valid() && RuntimeKeys(requests)
      modifies config
      ensures config.Valid()
      ensures config.pairs == AddAllAbsent(old(config.pairs), requests)
      ensures forall k | k in old(config.filters) :: k in config.filters && config.filters[k] == old(config.filters[k])
      ensures forall k | k in config.filters && k !in old(config.filters) :: fresh(config.filters[k])
    {
      var i := 0;
      while i < |requests|
        invariant 0 <= i <= |requests|
        invariant config.Valid()
        invariant config.pairs == AddAllAbsent(old(config.pairs), requests[..i])
        invariant forall k | k in old(config.filters) :: k in config.filters && config.filters[k] == old(config.filters[k])
        invariant forall k | k in config.filters && k !in old(config.filters) :: fresh(config.filters[k])
      {
        AddAllAbsentStep(old(config.pairs), requests, i);
        ghost var fb := config.filters;
        RequestFilter(requests[i]);
        forall k | k in config.filters && k !in old(config.filters)
          ensures fresh(config.filters[k])
        {
          if k in fb {
            assert config.filters[k] == fb[k];
          }
        }
        i := i + 1;
      }
      assert requests[..i] == requests;
    }

    /** config.CreateFilter for one pair, in the terms of the loop above. */
    method RequestFilter(key: Key)
      requires config.Valid() && PropertiesAreRuntimeTypes(key.0) && PropertiesAreRuntimeTypes(key.1)
      modifies config
      ensures config.Valid() && config.pairs == AddAbsent(old(config.pairs), key)
      ensures KeepsBuilders(old(config.filters), config.filters)
      ensures forall k | k in config.filters && k !in old(config.filters) :: fresh(config.filters[k])
    {
      ghost var before := config.Contents();
      var b := config.CreateFilter(key.0, key.1);
      RegisterAddsAbsent(before, key, b);
      RegisterKeepsBuilders(before.filters, before, key, b);
      RegisterNewKeys(before, key, b);
    }
  }
}
