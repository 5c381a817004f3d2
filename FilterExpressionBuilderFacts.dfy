/**
 * What the expression BuildExpression builds means: applied to an entity,
 * it holds exactly when every map that can build a condition for the filter
 * holds of the entity, and it throws exactly when one of those conditions
 * throws. The maps made by the auto-mapping always meet the premises of
 * this, and the keys and validation behave as the names of the properties
 * say.
 */
module FilterExpressionBuilderFacts {
  import opened Wrappers
  import opened Types
  import opened Expressions
  import opened ExpressionUpdateExtensions
  import opened ExpressionReplacer
  import opened PredicateProvider
  import opened FilterPropertyMap
  import opened FilterPropertyMapFacts
  import opened FilterExpressionBuilder
  import opened TypeUtils
  import PredicateProviderFindings

  // ---------------------------------------------------------------------------
  // The conjunction.

  /**
   * AddExpressionToAndAlsoExpression holds of a value exactly when the
   * conjunction so far and the added condition both do, provided the added
   * condition can take the conjunction's parameter in place of its own.
   */
  lemma AddToConjunctionMeaning(acc: Option<Expr>, cond: Expr, n: nat, v: Value)
    requires IsLambda1(cond) && (acc.Some? ==> IsLambda1(acc.value) && AcceptsParameter(cond, acc.value.params[0]))
    ensures Truthy(Apply1(AddToConjunction(acc, cond, n).e, v))
        <==> (acc.Some? ==> Truthy(Apply1(acc.value, v))) && Truthy(Apply1(cond, v))
  {
    if acc.Some? {
      var a := acc.value;
      var p := a.params[0];
      var c0 := cond.params[0];
      var np := Replace(cond.body, AnyKind, c0, p, n);
      var env := map[p := v];
      ReplaceEval(cond.body, c0, p, n, env);
      assert Eval(p, env) == v;
      if p != c0 {
        EvalFrame(cond.body, env[c0 := v], map[c0 := v]);
      } else {
        assert env[c0 := v] == map[c0 := v];
      }
      var r := AddToConjunction(acc, cond, n);
      assert r.e.body == Binary(np.next, AndAlso, a.body, np.e, None, false, None) && r.e.params == [p];
    }
  }

  /** Every map present is hygienic. */
  predicate AllHygienic(ms: seq<Option<MapState>>) {
    forall i | 0 <= i < |ms| && ms[i].Some? :: Hygienic(ms[i].value)
  }

  /** The predicate of every map avoids the entity parameter of every map. */
  predicate Separated(ms: seq<Option<MapState>>) {
    forall i, j | 0 <= i < |ms| && 0 <= j < |ms| && ms[i].Some? && ms[j].Some? && IsLambda1(ms[i].value.entityProperty) ::
      Admits(ms[j].value, ms[i].value.entityProperty.params[0])
  }

  /** Every map present admits x. */
  predicate AllAdmit(ms: seq<Option<MapState>>, x: Expr) {
    forall j | 0 <= j < |ms| && ms[j].Some? :: Admits(ms[j].value, x)
  }

  /** The map's condition for the filter throws: null cast to a non-nullable filter property type. */
  predicate Throws(m: Option<MapState>, filter: Value) {
    Applicable(m, filter) && UnboxFails(m.value.filterPropertyType, GetFilterValue(m.value, filter))
  }

  /** The entity meets the map's condition, or the map builds none for the filter. */
  predicate Holds(m: Option<MapState>, filter: Value, entity: Value) {
    Applicable(m, filter) ==> Truthy(ConditionMeaning(m.value, filter, entity))
  }

  lemma SuffixFacts(ms: seq<Option<MapState>>)
    requires ms != [] && AllValid(ms) && AllHygienic(ms) && Separated(ms)
    ensures AllValid(ms[1..]) && AllHygienic(ms[1..]) && Separated(ms[1..])
    ensures ms[0].Some? ==> AllAdmit(ms[1..], ms[0].value.entityProperty.params[0])
  {
    var t := ms[1..];
    forall i, j | 0 <= i < |t| && 0 <= j < |t| && t[i].Some? && t[j].Some?
      ensures Admits(t[j].value, t[i].value.entityProperty.params[0])
    {
      assert t[i] == ms[i + 1] && t[j] == ms[j + 1];
    }
    if ms[0].Some? {
      forall j | 0 <= j < |t| && t[j].Some?
        ensures Admits(t[j].value, ms[0].value.entityProperty.params[0])
      {
        assert t[j] == ms[j + 1];
      }
    }
  }

  /**
   * What the loop of BuildExpression from a given entry on says, for a
   * filter that is not null: it throws NullReferenceException exactly when
   * the condition of some applicable map throws; it is empty exactly when
   * nothing was conjoined before and no map applies; and otherwise it holds
   * of an entity exactly when the conjunction so far and every applicable
   * map do.
   */
  predicate ConjunctionSays(ms: seq<Option<MapState>>, filter: Value, acc: Option<Expr>, n: nat, entity: Value)
    requires AllValid(ms) && (acc.Some? ==> IsLambda1(acc.value))
  {
    var r := Conjunction(ms, filter, acc, n);
    (r.Failure? <==> exists i | 0 <= i < |ms| :: Throws(ms[i], filter))
    && (r.Failure? ==> r.error == NullReference)
    && (r.Success? ==> (r.value.e.None? <==> acc.None? && forall i | 0 <= i < |ms| :: !Applicable(ms[i], filter)))
    && (r.Success? && r.value.e.Some? ==>
          (Truthy(Apply1(r.value.e.value, entity))
           <==> (acc.Some? ==> Truthy(Apply1(acc.value, entity))) && forall i | 0 <= i < |ms| :: Holds(ms[i], filter, entity)))
  }

  lemma HoldsCons(ms: seq<Option<MapState>>, filter: Value, entity: Value)
    requires ms != []
    ensures (forall i | 0 <= i < |ms| :: Holds(ms[i], filter, entity))
        <==> Holds(ms[0], filter, entity) && forall i | 0 <= i < |ms[1..]| :: Holds(ms[1..][i], filter, entity)
  {
    if Holds(ms[0], filter, entity) && forall i | 0 <= i < |ms[1..]| :: Holds(ms[1..][i], filter, entity) {
      forall i | 0 <= i < |ms| ensures Holds(ms[i], filter, entity) {
        if i > 0 { assert ms[i] == ms[1..][i - 1]; }
      }
    }
  }

  lemma ThrowsCons(ms: seq<Option<MapState>>, filter: Value)
    requires ms != []
    ensures (exists i | 0 <= i < |ms| :: Throws(ms[i], filter))
        <==> Throws(ms[0], filter) || exists i | 0 <= i < |ms[1..]| :: Throws(ms[1..][i], filter)
  {
    if exists i | 0 <= i < |ms| :: Throws(ms[i], filter) {
      var i :| 0 <= i < |ms| && Throws(ms[i], filter);
      if i > 0 { assert ms[i] == ms[1..][i - 1]; }
    }
    if exists i | 0 <= i < |ms[1..]| :: Throws(ms[1..][i], filter) {
      var i :| 0 <= i < |ms[1..]| && Throws(ms[1..][i], filter);
      assert ms[1..][i] == ms[i + 1];
    }
  }

  lemma ApplicableCons(ms: seq<Option<MapState>>, filter: Value)
    requires ms != []
    ensures (forall i | 0 <= i < |ms| :: !Applicable(ms[i], filter))
        <==> !Applicable(ms[0], filter) && forall i | 0 <= i < |ms[1..]| :: !Applicable(ms[1..][i], filter)
  {
    if !Applicable(ms[0], filter) && forall i | 0 <= i < |ms[1..]| :: !Applicable(ms[1..][i], filter) {
      forall i | 0 <= i < |ms| ensures !Applicable(ms[i], filter) {
        if i > 0 { assert ms[i] == ms[1..][i - 1]; }
      }
    }
  }

  /** A map that builds no condition adds nothing to what the rest of the loop says. */
  lemma SkipStep(ms: seq<Option<MapState>>, filter: Value, acc: Option<Expr>, n: nat, entity: Value)
    requires ms != [] && AllValid(ms) && (acc.Some? ==> IsLambda1(acc.value)) && !Applicable(ms[0], filter)
    requires AllValid(ms[1..]) && ConjunctionSays(ms[1..], filter, acc, n, entity)
    ensures ConjunctionSays(ms, filter, acc, n, entity)
  {
    assert Conjunction(ms, filter, acc, n) == Conjunction(ms[1..], filter, acc, n);
    HoldsCons(ms, filter, entity);
    ThrowsCons(ms, filter);
    ApplicableCons(ms, filter);
  }

  /** A condition conjoined: the rest of the loop starts from the conjunction with it. */
  lemma AddStep(ms: seq<Option<MapState>>, filter: Value, acc: Option<Expr>, n: nat, entity: Value)
    requires ms != [] && AllValid(ms) && AllHygienic(ms) && filter != Null && Applicable(ms[0], filter)
    requires acc.Some? ==> IsLambda1(acc.value) && Admits(ms[0].value, acc.value.params[0])
    requires AllValid(ms[1..])
    requires var cond := BuildCondition(ms[0].value, filter, n);
      cond.Success? ==> var c := AddToConjunction(acc, cond.value.e, cond.value.next);
        ConjunctionSays(ms[1..], filter, Some(c.e), c.next, entity)
    ensures ConjunctionSays(ms, filter, acc, n, entity)
  {
    var s := ms[0].value;
    var cond := BuildCondition(s, filter, n);
    ThrowsCons(ms, filter);
    if cond.Success? {
      var c := AddToConjunction(acc, cond.value.e, cond.value.next);
      assert Conjunction(ms, filter, acc, n) == Conjunction(ms[1..], filter, Some(c.e), c.next);
      if acc.Some? {
        BuiltConditionAccepts(s, filter, n, acc.value.params[0]);
      }
      AddToConjunctionMeaning(acc, cond.value.e, cond.value.next, entity);
      BuiltConditionMeaning(s, filter, n, entity);
      HoldsCons(ms, filter, entity);
    } else {
      assert Conjunction(ms, filter, acc, n) == Failure(cond.error);
    }
  }

  /** The loop of BuildExpression from a given entry on says what ConjunctionSays states. */
  lemma {:induction false} ConjunctionMeaning(ms: seq<Option<MapState>>, filter: Value, acc: Option<Expr>, n: nat, entity: Value)
    requires AllValid(ms) && AllHygienic(ms) && Separated(ms) && filter != Null
    requires acc.Some? ==> IsLambda1(acc.value) && AllAdmit(ms, acc.value.params[0])
    ensures ConjunctionSays(ms, filter, acc, n, entity)
    decreases |ms|
  {
    if ms != [] {
      var t := ms[1..];
      SuffixFacts(ms);
      assert acc.Some? ==> AllAdmit(t, acc.value.params[0]) by {
        if acc.Some? {
          forall j | 0 <= j < |t| && t[j].Some? ensures Admits(t[j].value, acc.value.params[0]) {
            assert t[j] == ms[j + 1];
          }
        }
      }
      if !Applicable(ms[0], filter) {
        ConjunctionMeaning(t, filter, acc, n, entity);
        SkipStep(ms, filter, acc, n, entity);
      } else {
        var s := ms[0].value;
        var cond := BuildCondition(s, filter, n);
        if cond.Success? {
          var c := AddToConjunction(acc, cond.value.e, cond.value.next);
          assert c.e.params[0] == if acc.Some? then acc.value.params[0] else s.entityProperty.params[0];
          ConjunctionMeaning(t, filter, Some(c.e), c.next, entity);
        }
        AddStep(ms, filter, acc, n, entity);
      }
    }
  }

  /**
   * BuildExpression for a filter that is not null, once the table is read:
   * NullReferenceException exactly when the condition of some applicable
   * map throws, and otherwise an expression that holds of an entity exactly
   * when every applicable map's condition does (x => true when none applies).
   */
  lemma BuildResultMeaning(ms: seq<Option<MapState>>, filter: Value, et: Ty, n: nat, entity: Value)
    requires AllValid(ms) && AllHygienic(ms) && Separated(ms) && filter != Null
    ensures var r := BuildResult(ms, filter, et, n);
      (r.Failure? <==> exists i | 0 <= i < |ms| :: Throws(ms[i], filter))
      && (r.Failure? ==> r.error == NullReference)
      && (r.Success? ==> (Truthy(Apply1(r.value.e, entity)) <==> forall i | 0 <= i < |ms| :: Holds(ms[i], filter, entity)))
  {
    ConjunctionMeaning(ms, filter, None, n, entity);
    var c := Conjunction(ms, filter, None, n);
    if c.Success? && c.value.e.None? {
      assert forall i | 0 <= i < |ms| :: Holds(ms[i], filter, entity);
    }
  }

  // ---------------------------------------------------------------------------
  // The tables the auto-mapping makes.

  /** The ids a map mentions or declares, and its entity parameter's, are below n. */
  predicate EntryBelow(s: MapState, n: nat)
    requires ValidState(s)
  {
    s.entityProperty.params[0].id < n
    && (s.predicateLambda.Some? ==> IdsBelow(ParamsOf(s.predicateLambda.value.body), n) && IdsBelow(Binds(s.predicateLambda.value.body), n))
  }

  /** The ids of a map's predicate body, and its entity parameter's, are at least n. */
  predicate EntryFrom(s: MapState, n: nat)
    requires ValidState(s)
  {
    s.entityProperty.params[0].id >= n
    && (s.predicateLambda.Some? ==>
          (forall x | x in ParamsOf(s.predicateLambda.value.body) :: x.id >= n)
          && (forall x | x in Binds(s.predicateLambda.value.body) :: x.id >= n))
  }

  /**
   * A table whose maps are all hygienic, whose ids are all below the next
   * free id, and in which every map's predicate avoids every map's entity
   * parameter: what BuildResultMeaning needs of a table.
   */
  predicate Orderly(m: Mappings) {
    WellKeyed(m)
    && (forall k | k in m.table && m.table[k].Some? :: Hygienic(m.table[k].value) && EntryBelow(m.table[k].value, m.next))
    && (forall k1, k2 | k1 in m.table && k2 in m.table && m.table[k1].Some? && m.table[k2].Some? ::
          Admits(m.table[k2].value, m.table[k1].value.entityProperty.params[0]))
  }

  /** The values of an orderly table, in key order, are what BuildResultMeaning needs. */
  lemma OrderlyEntries(m: Mappings)
    requires Orderly(m)
    ensures AllValid(Entries(m)) && AllHygienic(Entries(m)) && Separated(Entries(m))
  {
    var ms := Entries(m);
    forall i, j | 0 <= i < |ms| && 0 <= j < |ms| && ms[i].Some? && ms[j].Some? && IsLambda1(ms[i].value.entityProperty)
      ensures Admits(ms[j].value, ms[i].value.entityProperty.params[0])
    {
      assert ms[i] == m.table[m.keys[i]] && ms[j] == m.table[m.keys[j]];
    }
  }

  /** A hygienic map whose ids are below n admits any node numbered n or above. */
  lemma AdmitsLater(s: MapState, n: nat, x: Expr)
    requires Hygienic(s) && EntryBelow(s, n) && x.id >= n
    ensures Admits(s, x)
  {
  }

  /** A hygienic map whose ids are n or above admits any node numbered below n. */
  lemma AdmitsEarlier(s: MapState, n: nat, x: Expr)
    requires Hygienic(s) && EntryFrom(s, n) && x.id < n
    ensures Admits(s, x)
  {
  }

  /**
   * The map MapPropertiesWithSameName makes from id n on is hygienic and
   * takes the ids from n up to the next free one: its entity parameter is
   * numbered before the predicate, which mentions only its own nodes.
   */
  lemma SameNameMappingIsOrderly(ft: Ty, et: Ty, fp: Property, ep: Property, n: nat)
    requires IsRuntimeType(fp.ty) && IsRuntimeType(ep.ty)
    ensures var a := SameNameMapping(ft, et, fp, ep, n);
      a.Success? ==> Hygienic(a.value.0) && EntryBelow(a.value.0, a.value.1) && EntryFrom(a.value.0, n)
  {
    var fl := Accessor(ft, ft.name, [PropertyAccess(fp.name, fp.ty)], n);
    var el := Accessor(et, et.name, [PropertyAccess(ep.name, ep.ty)], fl.next);
    AccessorIsClosed(et, et.name, [PropertyAccess(ep.name, ep.ty)], fl.next);
    assert el.e.params[0].id == n + 4 && el.next == n + 6;
  }

  /**
   * Every map of m2 is the one m1 files under its key, or takes only ids
   * from lo on.
   */
  predicate Extends(m1: Mappings, m2: Mappings, lo: nat) {
    forall k | k in m2.table && m2.table[k].Some? ::
      (k in m1.table && m1.table[k] == m2.table[k]) || (ValidState(m2.table[k].value) && EntryFrom(m2.table[k].value, lo))
  }

  /** One step of MapPropertiesWithSameName keeps a table orderly, and adds only maps with ids from the next free one on. */
  lemma SameNameStepIsOrderly(ft: Ty, et: Ty, i: nat, m: Mappings)
    requires i < |ft.properties| && PropertiesAreRuntimeTypes(ft) && PropertiesAreRuntimeTypes(et)
    requires Orderly(m)
    ensures var r := SameNameStep(ft, et, i, m); r.Success? ==> Orderly(r.value) && Extends(m, r.value, m.next)
  {
    var fp := ft.properties[i];
    var ep := FindProperty(et.properties, fp.name);
    if !fp.isIndexer && ep.Some? && Readable(fp) && Readable(ep.value) {
      var a := SameNameMapping(ft, et, fp, ep.value, m.next);
      SameNameMappingIsOrderly(ft, et, fp, ep.value, m.next);
      if a.Success? {
        var s := a.value.0;
        var key := GetPropertyMapKey(s.filterProperty);
        assert SameNameStep(ft, et, i, m) == Success(Assign(m, key, Some(s), a.value.1));
        AssignNewIsOrderly(m, key, s, a.value.1);
      }
    }
  }

  /**
   * Setting a hygienic map that takes only ids from the next free one up to
   * the new next free one keeps a table orderly: the map and the table's
   * maps avoid each other's entity parameters, having no id in common.
   */
  lemma AssignNewIsOrderly(m: Mappings, key: Expr, s: MapState, next: nat)
    requires Orderly(m) && ValidState(s) && Hygienic(s) && EntryBelow(s, next) && EntryFrom(s, m.next) && next >= m.next
    ensures var r := Assign(m, key, Some(s), next); Orderly(r) && Extends(m, r, m.next)
  {
    forall k | k in m.table && m.table[k].Some?
      ensures Admits(m.table[k].value, s.entityProperty.params[0]) && Admits(s, m.table[k].value.entityProperty.params[0])
    {
      AdmitsLater(m.table[k].value, m.next, s.entityProperty.params[0]);
      AdmitsEarlier(s, m.next, m.table[k].value.entityProperty.params[0]);
    }
    AssignKeepsOrderly(m, key, s, next);
    var r := Assign(m, key, Some(s), next);
    forall k | k in r.table && r.table[k].Some?
      ensures (k in m.table && m.table[k] == r.table[k]) || (ValidState(r.table[k].value) && EntryFrom(r.table[k].value, m.next))
    {
      if k != key {
        assert r.table[k] == m.table[k];
      }
    }
  }

  /** EntryFrom holds for any lower bound below the one it holds for. */
  lemma EntryFromLower(s: MapState, lo: nat, hi: nat)
    requires ValidState(s) && EntryFrom(s, hi) && lo <= hi
    ensures EntryFrom(s, lo)
  {
  }

  /**
   * MapPropertiesWithSameName keeps a table orderly, including the table a
   * throwing step leaves, and adds only maps with ids from the next free one on.
   */
  lemma {:induction false} SameNameMappingsAreOrderly(ft: Ty, et: Ty, i: nat, m: Mappings)
    requires i <= |ft.properties| && PropertiesAreRuntimeTypes(ft) && PropertiesAreRuntimeTypes(et)
    requires Orderly(m)
    ensures var r := SameNameMappings(ft, et, i, m).mappings; Orderly(r) && Extends(m, r, m.next)
    decreases |ft.properties| - i
  {
    if i < |ft.properties| {
      SameNameStepIsOrderly(ft, et, i, m);
      var step := SameNameStep(ft, et, i, m);
      if step.Success? {
        var m' := step.value;
        SameNameMappingsAreOrderly(ft, et, i + 1, m');
        var r := SameNameMappings(ft, et, i + 1, m').mappings;
        assert SameNameMappings(ft, et, i, m).mappings == r;
        forall k | k in r.table && r.table[k].Some?
          ensures (k in m.table && m.table[k] == r.table[k]) || (ValidState(r.table[k].value) && EntryFrom(r.table[k].value, m.next))
        {
          if !(k in m'.table && m'.table[k] == r.table[k]) {
            EntryFromLower(r.table[k].value, m.next, m'.next);
          }
        }
      }
    }
  }

  /** The table the PropertyMappings getter leaves is orderly when the one it starts from is. */
  lemma InitializedIsOrderly(created: bool, ft: Ty, et: Ty, m: Mappings)
    requires PropertiesAreRuntimeTypes(ft) && PropertiesAreRuntimeTypes(et) && Orderly(m)
    ensures var r := Initialized(created, ft, et, m).mappings; Orderly(r) && Extends(m, r, m.next)
  {
    if !created {
      SameNameMappingsAreOrderly(ft, et, 0, m);
    }
  }

  /**
   * Setting a hygienic map whose ids are below the next free one keeps a
   * table orderly when the map and the table's maps avoid each other's
   * entity parameters.
   */
  lemma AssignKeepsOrderly(m: Mappings, key: Expr, s: MapState, next: nat)
    requires Orderly(m) && Hygienic(s) && EntryBelow(s, next) && next >= m.next
    requires forall k | k in m.table && m.table[k].Some? ::
      Admits(m.table[k].value, s.entityProperty.params[0]) && Admits(s, m.table[k].value.entityProperty.params[0])
    ensures Orderly(Assign(m, key, Some(s), next))
  {
    var r := Assign(m, key, Some(s), next);
    forall k | k in r.table && r.table[k].Some?
      ensures Hygienic(r.table[k].value) && EntryBelow(r.table[k].value, r.next)
    {
    }
  }

  /** A predicate built from the ids in [lo, hi) avoids every node numbered outside them. */
  lemma BuiltPredicateAvoids(e: Expr, lo: nat, hi: nat, x: Expr)
    requires IsPredicate(e, lo, hi) && (x.id < lo || x.id >= hi)
    ensures PredicateAvoids(e, x)
  {
  }

  /**
   * Setting a map after the PropertyMappings getter keeps the table orderly,
   * when the map is hygienic with ids below the next free id and avoids,
   * and is avoided by, every map already set: the maps the getter adds take
   * ids from that one on.
   */
  lemma InitializedThenAssignIsOrderly(created: bool, ft: Ty, et: Ty, s: Mappings, key: Expr, st: MapState)
    requires PropertiesAreRuntimeTypes(ft) && PropertiesAreRuntimeTypes(et) && Orderly(s)
    requires Hygienic(st) && EntryBelow(st, s.next)
    requires forall k | k in s.table && s.table[k].Some? ::
      Admits(s.table[k].value, st.entityProperty.params[0]) && Admits(st, s.table[k].value.entityProperty.params[0])
    ensures var i := Initialized(created, ft, et, s);
      Orderly(i.mappings) && (i.outcome.Pass? ==> Orderly(Assign(i.mappings, key, Some(st), i.mappings.next)))
  {
    InitializedIsOrderly(created, ft, et, s);
    var i := Initialized(created, ft, et, s).mappings;
    forall k | k in i.table && i.table[k].Some?
      ensures Admits(i.table[k].value, st.entityProperty.params[0]) && Admits(st, i.table[k].value.entityProperty.params[0])
    {
      var e := i.table[k].value;
      if !(k in s.table && s.table[k] == i.table[k]) {
        AdmitsEarlier(e, s.next, st.entityProperty.params[0]);
        AdmitsLater(st, s.next, e.entityProperty.params[0]);
      }
    }
    AssignKeepsOrderly(i, key, st, i.next);
  }

  /**
   * Map keeps the table orderly in every outcome, when the entity accessor
   * the caller passes reads only its own parameter, is numbered below the
   * builder's next free id, and is avoided by every map already set: the
   * predicate built for the new map and the auto-mapped maps take ids from
   * that one on.
   */
  lemma MapKeepsOrderly(created: bool, ft: Ty, et: Ty, m: Mappings, tfp: Ty, tep: Ty, fl: Expr, el: Expr, c: ComparisonType)
    requires PropertiesAreRuntimeTypes(ft) && PropertiesAreRuntimeTypes(et) && Orderly(m)
    requires IsPropertyLambda(fl) && IsClosedAccessor(el) && el.params[0].id < m.next
    requires forall k | k in m.table && m.table[k].Some? :: Admits(m.table[k].value, el.params[0])
    ensures var pred := ComparisonPredicate(tfp, tep, c, m.next);
      pred.Success? ==>
        var i := Initialized(created, ft, et, m.(next := NextAfter(pred.value, m.next)));
        Orderly(i.mappings)
        && (i.outcome.Pass? ==>
              Orderly(Assign(i.mappings, GetPropertyMapKey(fl), Some(MapState(tfp, tep, fl, el, PredicateOf(pred.value), true)), i.mappings.next)))
  {
    var pred := ComparisonPredicate(tfp, tep, c, m.next);
    if pred.Success? {
      NewMapIsOrderly(m, tfp, tep, fl, el, pred.value);
      InitializedThenAssignIsOrderly(created, ft, et, m.(next := NextAfter(pred.value, m.next)), GetPropertyMapKey(fl),
        MapState(tfp, tep, fl, el, PredicateOf(pred.value), true));
    }
  }

  /**
   * The map Map makes, with a predicate built from the next free id on, is
   * hygienic, takes ids below the new next free one, and avoids and is
   * avoided by every map already set.
   */
  lemma NewMapIsOrderly(m: Mappings, tfp: Ty, tep: Ty, fl: Expr, el: Expr, p: Option<Built>)
    requires Orderly(m) && IsPropertyLambda(fl) && IsClosedAccessor(el) && el.params[0].id < m.next
    requires forall k | k in m.table && m.table[k].Some? :: Admits(m.table[k].value, el.params[0])
    requires p.Some? ==> IsPredicate(p.value.e, m.next, p.value.next)
    ensures var st := MapState(tfp, tep, fl, el, PredicateOf(p), true);
      var s := m.(next := NextAfter(p, m.next));
      Orderly(s) && Hygienic(st) && EntryBelow(st, s.next)
      && forall k | k in s.table && s.table[k].Some? ::
           Admits(s.table[k].value, st.entityProperty.params[0]) && Admits(st, s.table[k].value.entityProperty.params[0])
  {
    var lo := m.next;
    var hi := NextAfter(p, lo);
    var st := MapState(tfp, tep, fl, el, PredicateOf(p), true);
    if p.Some? {
      BuiltPredicateAvoids(p.value.e, lo, hi, el.params[0]);
      forall k | k in m.table && m.table[k].Some?
        ensures Admits(st, m.table[k].value.entityProperty.params[0])
      {
        BuiltPredicateAvoids(p.value.e, lo, hi, m.table[k].value.entityProperty.params[0]);
      }
    }
  }

  /** Ignore keeps a table orderly in every outcome. */
  lemma IgnoreKeepsOrderly(created: bool, ft: Ty, et: Ty, m: Mappings, key: Expr)
    requires PropertiesAreRuntimeTypes(ft) && PropertiesAreRuntimeTypes(et) && Orderly(m)
    ensures var i := Initialized(created, ft, et, m);
      Orderly(i.mappings) && Orderly(Assign(i.mappings, key, None, i.mappings.next))
  {
    InitializedIsOrderly(created, ft, et, m);
    var i := Initialized(created, ft, et, m).mappings;
    var r := Assign(i, key, None, i.next);
    forall k | k in r.table && r.table[k].Some?
      ensures k in i.table && i.table[k] == r.table[k]
    {
    }
  }

  /**
   * The expression the builder builds for a filter that is not null when
   * its table holds only the auto-mapped maps: NullReferenceException when
   * the condition of some applicable map throws, and otherwise one that
   * holds of an entity exactly when every applicable map's condition does.
   */
  lemma AutoMappedFilterMeaning(ft: Ty, et: Ty, n: nat, filter: Value, entity: Value)
    requires PropertiesAreRuntimeTypes(ft) && PropertiesAreRuntimeTypes(et) && filter != Null
    ensures var m := SameNameMappings(ft, et, 0, Mappings([], map[], n)).mappings;
      var r := BuildResult(Entries(m), filter, et, m.next);
      (r.Failure? <==> exists i | 0 <= i < |Entries(m)| :: Throws(Entries(m)[i], filter))
      && (r.Failure? ==> r.error == NullReference)
      && (r.Success? ==> (Truthy(Apply1(r.value.e, entity)) <==> forall i | 0 <= i < |Entries(m)| :: Holds(Entries(m)[i], filter, entity)))
  {
    var m := SameNameMappings(ft, et, 0, Mappings([], map[], n)).mappings;
    SameNameMappingsAreOrderly(ft, et, 0, Mappings([], map[], n));
    OrderlyEntries(m);
    BuildResultMeaning(Entries(m), filter, et, m.next, entity);
  }

  // ---------------------------------------------------------------------------
  // Keys and validation.

  /** Two property keys of a filter type are the same exactly when the properties share a name. */
  lemma PropertyKeySameName(ft: Ty, p: Property, q: Property)
    ensures PropertyKey(ft, p) == PropertyKey(ft, q) <==> p.name == q.name
  {
    assert [PropertyAccess(p.name, p.ty)][..0] == [] == [PropertyAccess(q.name, q.ty)][..0];
    if PropertyKey(ft, p) == PropertyKey(ft, q) {
      assert MemberText(PropertyAccess(p.name, p.ty)) == MemberText(PropertyAccess(q.name, q.ty));
    }
  }

  /** The key of a sub-property never is that of a property: the texts read two members and one. */
  lemma SubPropertyKeyIsNotPropertyKey(ft: Ty, p: Property, sub: Property, q: Property)
    ensures SubPropertyKey(ft, p, sub) != PropertyKey(ft, q)
  {
    var two := [PropertyAccess(p.name, p.ty), PropertyAccess(sub.name, sub.ty)];
    assert two[..1] == [PropertyAccess(p.name, p.ty)] && two[..1][..0] == [];
    assert [PropertyAccess(q.name, q.ty)][..0] == [];
    assert TextChain(two).target.value.Member?;
    assert TextChain([PropertyAccess(q.name, q.ty)]).target.value == KeyParameter;
  }

  /** The auto-mapping files the map of a filter property under the property's key. */
  lemma SameNameMappingKey(ft: Ty, et: Ty, fp: Property, ep: Property, n: nat)
    requires IsRuntimeType(fp.ty) && IsRuntimeType(ep.ty)
    ensures var a := SameNameMapping(ft, et, fp, ep, n);
      a.Success? ==> GetPropertyMapKey(a.value.0.filterProperty) == PropertyKey(ft, fp)
  {
    var path := [PropertyAccess(fp.name, fp.ty)];
    var fl := Accessor(ft, ft.name, path, n);
    ChainIsChain(fl.e.params[0], path, n);
    ChainKey(fl.e, path);
  }

  /** The filter property at index j is auto-mapped: it is not an indexer and the entity has a property of its name. */
  predicate SameNamed(ft: Ty, et: Ty, j: nat)
    requires j < |ft.properties|
  {
    !ft.properties[j].isIndexer && FindProperty(et.properties, ft.properties[j].name).Some?
  }

  /** The keys of the auto-mapped filter properties from the i-th on. */
  function AutoKeys(ft: Ty, et: Ty, i: nat): set<Expr> {
    set j | i <= j < |ft.properties| && SameNamed(ft, et, j) :: PropertyKey(ft, ft.properties[j])
  }

  lemma AutoKeysStep(ft: Ty, et: Ty, i: nat)
    requires i < |ft.properties|
    ensures AutoKeys(ft, et, i) == (if SameNamed(ft, et, i) then {PropertyKey(ft, ft.properties[i])} else {}) + AutoKeys(ft, et, i + 1)
  {
    forall k | k in AutoKeys(ft, et, i)
      ensures k in (if SameNamed(ft, et, i) then {PropertyKey(ft, ft.properties[i])} else {}) + AutoKeys(ft, et, i + 1)
    {
      var j :| i <= j < |ft.properties| && SameNamed(ft, et, j) && k == PropertyKey(ft, ft.properties[j]);
      if j > i {
        assert k in AutoKeys(ft, et, i + 1);
      }
    }
  }

  /** One step adds the property key of the i-th filter property exactly when it is auto-mapped. */
  lemma SameNameStepKeys(ft: Ty, et: Ty, i: nat, m: Mappings)
    requires i < |ft.properties| && PropertiesAreRuntimeTypes(ft) && PropertiesAreRuntimeTypes(et)
    ensures var r := SameNameStep(ft, et, i, m);
      r.Success? ==> r.value.table.Keys == m.table.Keys + (if SameNamed(ft, et, i) then {PropertyKey(ft, ft.properties[i])} else {})
  {
    var fp := ft.properties[i];
    if SameNamed(ft, et, i) {
      SameNameMappingKey(ft, et, fp, FindProperty(et.properties, fp.name).value, m.next);
    }
  }

  /**
   * The keys the auto-mapping adds from the i-th filter property on are the
   * property keys of the auto-mapped filter properties, and no others; all
   * of them when no step throws.
   */
  lemma {:induction false} AutoMappedKeys(ft: Ty, et: Ty, i: nat, m: Mappings)
    requires i <= |ft.properties| && PropertiesAreRuntimeTypes(ft) && PropertiesAreRuntimeTypes(et)
    ensures var r := SameNameMappings(ft, et, i, m);
      m.table.Keys <= r.mappings.table.Keys <= m.table.Keys + AutoKeys(ft, et, i)
      && (r.outcome.Pass? ==> r.mappings.table.Keys == m.table.Keys + AutoKeys(ft, et, i))
    decreases |ft.properties| - i
  {
    if i < |ft.properties| {
      var step := SameNameStep(ft, et, i, m);
      var added := if SameNamed(ft, et, i) then {PropertyKey(ft, ft.properties[i])} else {};
      AutoKeysStep(ft, et, i);
      assert AutoKeys(ft, et, i) == added + AutoKeys(ft, et, i + 1);
      if step.Success? {
        var m' := step.value;
        SameNameStepKeys(ft, et, i, m);
        AutoMappedKeys(ft, et, i + 1, m');
        assert SameNameMappings(ft, et, i, m) == SameNameMappings(ft, et, i + 1, m');
        assert m'.table.Keys == m.table.Keys + added;
      }
    } else {
      assert AutoKeys(ft, et, i) == {};
    }
  }

  /**
   * The auto-mapping from the i-th filter property on throws only for an
   * auto-mapped property pair that does not build cleanly: one of the two
   * properties has no instance accessor, or the provider can build the Equal
   * predicate but its build throws. The exception is an
   * InvalidOperationException or ArgumentException. It completes in
   * particular when every such pair builds cleanly.
   */
  lemma {:induction false} AutoMappingFailure(ft: Ty, et: Ty, i: nat, m: Mappings)
    requires i <= |ft.properties| && PropertiesAreRuntimeTypes(ft) && PropertiesAreRuntimeTypes(et)
    ensures var r := SameNameMappings(ft, et, i, m);
      r.outcome.Fail? ==>
        (r.outcome.error.InvalidOperation? || r.outcome.error.InvalidArgument?)
        && exists j | i <= j < |ft.properties| :: SameNamed(ft, et, j) && PairThrows(ft, et, j)
    decreases |ft.properties| - i
  {
    var r := SameNameMappings(ft, et, i, m);
    if i < |ft.properties| && r.outcome.Fail? {
      var step := SameNameStep(ft, et, i, m);
      if step.Success? {
        AutoMappingFailure(ft, et, i + 1, step.value);
        assert r == SameNameMappings(ft, et, i + 1, step.value);
        var j :| i + 1 <= j < |ft.properties| && SameNamed(ft, et, j) && PairThrows(ft, et, j);
        assert i <= j;
      } else {
        StepFailure(ft, et, i, m);
      }
    }
  }

  /**
   * A step of the auto-mapping that throws is one for an auto-mapped pair
   * that does not build cleanly: an ArgumentException when a property has
   * no instance accessor, otherwise the exception of a predicate that can be
   * built but does not build cleanly.
   */
  lemma StepFailure(ft: Ty, et: Ty, i: nat, m: Mappings)
    requires i < |ft.properties| && PropertiesAreRuntimeTypes(ft) && PropertiesAreRuntimeTypes(et)
    requires SameNameStep(ft, et, i, m).Failure?
    ensures var e := SameNameStep(ft, et, i, m).error;
      SameNameMappings(ft, et, i, m) == Filled(m, Fail(e))
      && (e.InvalidOperation? || e.InvalidArgument?)
      && SameNamed(ft, et, i) && PairThrows(ft, et, i)
      && (!PairReadable(ft, et, i) ==> e.InvalidArgument?)
  {
    var fp := ft.properties[i];
    var ep := FindProperty(et.properties, fp.name);
    assert !fp.isIndexer && ep.Some?;
    if PairReadable(ft, et, i) {
      var a := SameNameMapping(ft, et, fp, ep.value, m.next);
      assert a.Failure?;
    }
  }

  /** The j-th filter property and the entity property of its name both have instance accessors. */
  predicate PairReadable(ft: Ty, et: Ty, j: nat)
    requires j < |ft.properties| && SameNamed(ft, et, j)
  {
    Readable(ft.properties[j]) && Readable(FindProperty(et.properties, ft.properties[j].name).value)
  }

  /** The accessors of the j-th filter property and the entity property of its name, and their Equal predicate, build cleanly. */
  predicate PairBuildsCleanly(ft: Ty, et: Ty, j: nat)
    requires j < |ft.properties| && SameNamed(ft, et, j)
  {
    PairReadable(ft, et, j) && BuildsCleanly(ft.properties[j].ty, FindProperty(et.properties, ft.properties[j].name).value.ty)
  }

  /** The pair's auto-mapping throws: no accessor for one of the two, or a predicate that can be built but not cleanly. */
  predicate PairThrows(ft: Ty, et: Ty, j: nat)
    requires j < |ft.properties| && SameNamed(ft, et, j)
  {
    !PairBuildsCleanly(ft, et, j) && (PairReadable(ft, et, j) ==> CanBuild(ft.properties[j].ty, FindProperty(et.properties, ft.properties[j].name).value.ty, ComparisonType.Equal))
  }

  /**
   * What every auto-mapped map is: null filter values ignored, the Equal
   * predicate exactly when the provider can build it, and that predicate
   * holding of a filter and an entity value exactly when the two are equal
   * in the provider's sense (unless a range filter meets an IEnumerable
   * entity property).
   */
  ghost predicate AutoDefaults(s: Option<MapState>) {
    s.Some? && s.value.ignoreNullValues
    && (s.value.predicateLambda.Some? <==> CanBuild(s.value.filterPropertyType, s.value.entityPropertyType, ComparisonType.Equal))
    && (s.value.predicateLambda.Some? && !(RangeDefinition(s.value.filterPropertyType).Some? && GetItemTypeIfIEnumerable(s.value.entityPropertyType).Some?) ==>
          forall a, b :: Apply2(s.value.predicateLambda.value, a, b)
                          == Meaning(s.value.filterPropertyType, s.value.entityPropertyType, ComparisonType.Equal, a, b))
  }

  /** One step of the auto-mapping adds only a map with the defaults. */
  lemma SameNameStepDefaults(ft: Ty, et: Ty, i: nat, m: Mappings)
    requires i < |ft.properties| && PropertiesAreRuntimeTypes(ft) && PropertiesAreRuntimeTypes(et)
    requires forall k | k in m.table :: AutoDefaults(m.table[k])
    ensures var r := SameNameStep(ft, et, i, m); r.Success? ==> forall k | k in r.value.table :: AutoDefaults(r.value.table[k])
  {
    var fp := ft.properties[i];
    var ep := FindProperty(et.properties, fp.name);
    if !fp.isIndexer && ep.Some? && Readable(fp) && Readable(ep.value) {
      SameNameMappingReads(ft, et, i, m.next, Null, Null);
      var a := SameNameMapping(ft, et, fp, ep.value, m.next);
      if a.Success? {
        var key := GetPropertyMapKey(a.value.0.filterProperty);
        assert SameNameStep(ft, et, i, m) == Success(Assign(m, key, Some(a.value.0), a.value.1));
        AssignKeepsDefaults(m, key, a.value.0, a.value.1);
      }
    }
  }

  /** Setting a map with the defaults keeps every map of the table with the defaults. */
  lemma AssignKeepsDefaults(m: Mappings, key: Expr, s: MapState, next: nat)
    requires AutoDefaults(Some(s)) && forall k | k in m.table :: AutoDefaults(m.table[k])
    ensures var r := Assign(m, key, Some(s), next); forall k | k in r.table :: AutoDefaults(r.table[k])
  {
    var r := Assign(m, key, Some(s), next);
    forall k | k in r.table
      ensures AutoDefaults(r.table[k])
    {
      if k != key {
        assert r.table[k] == m.table[k];
      }
    }
  }

  /**
   * The map for an auto-mapped pair reads the filter property and the entity
   * property of the same name, over their own types, and has the defaults.
   */
  lemma SameNameMappingReads(ft: Ty, et: Ty, i: nat, n: nat, filter: Value, entity: Value)
    requires i < |ft.properties| && PropertiesAreRuntimeTypes(ft) && PropertiesAreRuntimeTypes(et) && SameNamed(ft, et, i)
    ensures var fp := ft.properties[i];
      var ep := FindProperty(et.properties, fp.name).value;
      var a := SameNameMapping(ft, et, fp, ep, n);
      a.Success? ==>
        a.value.0.filterPropertyType == fp.ty && a.value.0.entityPropertyType == ep.ty && ep.name == fp.name
        && Apply1(a.value.0.filterProperty, filter) == ReadMember(filter, PropertyAccess(fp.name, fp.ty))
        && Apply1(a.value.0.entityProperty, entity) == ReadMember(entity, PropertyAccess(fp.name, ep.ty))
        && AutoDefaults(Some(a.value.0))
  {
    var fp := ft.properties[i];
    var ep := FindProperty(et.properties, fp.name).value;
    var fpath := [PropertyAccess(fp.name, fp.ty)];
    var epath := [PropertyAccess(ep.name, ep.ty)];
    var fl := Accessor(ft, ft.name, fpath, n);
    var el := Accessor(et, et.name, epath, fl.next);
    AccessorReadsPath(ft, ft.name, fpath, n, filter);
    AccessorReadsPath(et, et.name, epath, fl.next, entity);
    assert fpath[..0] == [] && epath[..0] == [];
    var a := SameNameMapping(ft, et, fp, ep, n);
    if a.Success? {
      var pred := ComparisonPredicate(fp.ty, ep.ty, ComparisonType.Equal, el.next);
      assert a.value.0 == MapState(fp.ty, ep.ty, fl.e, el.e, PredicateOf(pred.value), true);
    }
  }

  /** The auto-mapping adds only maps with the defaults. */
  lemma {:induction false} AutoMappedDefaults(ft: Ty, et: Ty, i: nat, m: Mappings)
    requires i <= |ft.properties| && PropertiesAreRuntimeTypes(ft) && PropertiesAreRuntimeTypes(et)
    requires forall k | k in m.table :: AutoDefaults(m.table[k])
    ensures var r := SameNameMappings(ft, et, i, m).mappings; forall k | k in r.table :: AutoDefaults(r.table[k])
    decreases |ft.properties| - i
  {
    if i < |ft.properties| {
      var step := SameNameStep(ft, et, i, m);
      SameNameStepDefaults(ft, et, i, m);
      if step.Success? {
        var m' := step.value;
        AutoMappedDefaults(ft, et, i + 1, m');
        assert SameNameMappings(ft, et, i, m) == SameNameMappings(ft, et, i + 1, m');
      }
    }
  }

  /**
   * The loop of AssertConfigurationIsValid from the i-th filter property on
   * throws exactly when IsPropertyMapped throws for one of the properties it
   * checks, and otherwise lists exactly the names of the properties that are
   * not indexers and are not mapped.
   */
  lemma {:induction false} UnmappedNames(keys: set<Expr>, ft: Ty, i: nat)
    requires i <= |ft.properties|
    ensures var r := UnmappedProperties(keys, ft, i);
      (r.Failure? <==> exists j | i <= j < |ft.properties| :: CheckThrows(keys, ft, j))
      && (r.Success? ==> forall name :: name in r.value <==> exists j | i <= j < |ft.properties| :: Reports(keys, ft, j, name))
    decreases |ft.properties| - i
  {
    if i < |ft.properties| {
      UnmappedNames(keys, ft, i + 1);
      var r := UnmappedProperties(keys, ft, i);
      var rest := UnmappedProperties(keys, ft, i + 1);
      ThrowsSplit(keys, ft, i);
      var prop := ft.properties[i];
      if !prop.isIndexer && PropertyMapped(keys, ft, prop).Success? {
        assert r.Success? <==> rest.Success?;
        if rest.Success? {
          assert r.value == if PropertyMapped(keys, ft, prop).value then rest.value else [prop.name] + rest.value;
        }
      }
      if r.Success? {
        forall name ensures name in r.value <==> exists j | i <= j < |ft.properties| :: Reports(keys, ft, j, name) {
          ReportsSplit(keys, ft, i, name);
        }
      }
    }
  }

  /** The j-th filter property is checked, and its check throws. */
  predicate CheckThrows(keys: set<Expr>, ft: Ty, j: nat)
    requires j < |ft.properties|
  {
    !ft.properties[j].isIndexer && PropertyMapped(keys, ft, ft.properties[j]).Failure?
  }

  /** The j-th filter property is checked, is not mapped, and has the given name. */
  predicate Reports(keys: set<Expr>, ft: Ty, j: nat, name: string)
    requires j < |ft.properties|
  {
    !ft.properties[j].isIndexer && PropertyMapped(keys, ft, ft.properties[j]) == Success(false) && ft.properties[j].name == name
  }

  lemma ThrowsSplit(keys: set<Expr>, ft: Ty, i: nat)
    requires i < |ft.properties|
    ensures (exists j | i <= j < |ft.properties| :: CheckThrows(keys, ft, j))
        <==> CheckThrows(keys, ft, i) || exists j | i + 1 <= j < |ft.properties| :: CheckThrows(keys, ft, j)
  {
    if exists j | i <= j < |ft.properties| :: CheckThrows(keys, ft, j) {
      var j :| i <= j < |ft.properties| && CheckThrows(keys, ft, j);
      if j != i {
        assert i + 1 <= j;
      }
    }
  }

  lemma ReportsSplit(keys: set<Expr>, ft: Ty, i: nat, name: string)
    requires i < |ft.properties|
    ensures (exists j | i <= j < |ft.properties| :: Reports(keys, ft, j, name))
        <==> Reports(keys, ft, i, name) || exists j | i + 1 <= j < |ft.properties| :: Reports(keys, ft, j, name)
  {
    if exists j | i <= j < |ft.properties| :: Reports(keys, ft, j, name) {
      var j :| i <= j < |ft.properties| && Reports(keys, ft, j, name);
      if j != i {
        assert i + 1 <= j;
      }
    }
  }

  /** A property with an accessor whose own key is in the table counts as mapped, whatever its type. */
  lemma KeyedPropertyIsMapped(keys: set<Expr>, ft: Ty, prop: Property)
    requires Readable(prop) && PropertyKey(ft, prop) in keys
    ensures PropertyMapped(keys, ft, prop) == Success(true)
  {
  }

  /** From the i-th filter property on, when no property is static, no property whose key is in the table is reported. */
  lemma {:induction false} AllKeyedEmpty(keys: set<Expr>, ft: Ty, i: nat)
    requires i <= |ft.properties|
    requires forall j | i <= j < |ft.properties| && !ft.properties[j].isIndexer ::
      !ft.properties[j].isStatic && PropertyKey(ft, ft.properties[j]) in keys
    ensures UnmappedProperties(keys, ft, i) == Success([])
    decreases |ft.properties| - i
  {
    if i < |ft.properties| {
      AllKeyedEmpty(keys, ft, i + 1);
      if !ft.properties[i].isIndexer {
        KeyedPropertyIsMapped(keys, ft, ft.properties[i]);
      }
    }
  }

  /**
   * A table holding the key of every filter property that is not an indexer
   * passes AssertConfigurationIsValid, when none of them is static.
   */
  lemma AllKeyedPasses(keys: set<Expr>, ft: Ty)
    requires forall j | 0 <= j < |ft.properties| && !ft.properties[j].isIndexer ::
      !ft.properties[j].isStatic && PropertyKey(ft, ft.properties[j]) in keys
    ensures ConfigurationOutcome(keys, ft) == Pass
  {
    AllKeyedEmpty(keys, ft, 0);
  }

  /**
   * A filter type all of whose properties but the indexers have an entity
   * property of the same name, with instance accessors for both and an
   * Equal predicate that builds cleanly, passes
   * AssertConfigurationIsValid on a new builder: the auto-mapping completes
   * and its table alone maps every property.
   */
  lemma AutoMappedConfigurationIsValid(ft: Ty, et: Ty, n: nat)
    requires PropertiesAreRuntimeTypes(ft) && PropertiesAreRuntimeTypes(et)
    requires forall j | 0 <= j < |ft.properties| && !ft.properties[j].isIndexer :: FindProperty(et.properties, ft.properties[j].name).Some?
    requires forall j | 0 <= j < |ft.properties| && SameNamed(ft, et, j) :: PairBuildsCleanly(ft, et, j)
    ensures SameNameMappings(ft, et, 0, Mappings([], map[], n)).outcome == Pass
    ensures ValidationOf(ft, et, TableState(false, Mappings([], map[], n))) == Pass
  {
    var r := SameNameMappings(ft, et, 0, Mappings([], map[], n));
    var keys := r.mappings.table.Keys;
    AutoMappingFailure(ft, et, 0, Mappings([], map[], n));
    AutoMappedKeys(ft, et, 0, Mappings([], map[], n));
    assert keys == AutoKeys(ft, et, 0);
    forall j | 0 <= j < |ft.properties| && !ft.properties[j].isIndexer
      ensures !ft.properties[j].isStatic && PropertyKey(ft, ft.properties[j]) in keys
    {
      assert SameNamed(ft, et, j);
    }
    AllKeyedPasses(keys, ft);
  }

  // ---------------------------------------------------------------------------
  // Static properties.

  /** A filter class with one DateTime property, Date. */
  const DateFilterType := Ty("DateFilter", [], false, ClassFlags, Some(ObjectType), [],
                             [Property("Date", DateTimeType, false, false)])

  /**
   * Validating a filter whose DateTime property is not mapped throws an
   * ArgumentException: the walk over the properties of DateTime reaches
   * the static Now. A map under the property's own key is found first.
   */
  lemma UnmappedDateTimeThrows(keys: set<Expr>)
    ensures PropertyKey(DateFilterType, DateFilterType.properties[0]) !in keys ==>
      ConfigurationOutcome(keys, DateFilterType) == Fail(InvalidArgument("property"))
    ensures PropertyKey(DateFilterType, DateFilterType.properties[0]) in keys ==>
      ConfigurationOutcome(keys, DateFilterType) == Pass
  {
    SimpleTypeFacts(DateTimeType);
    assert UnmappedProperties(keys, DateFilterType, 1) == Success([]);
  }

  /** A filter class whose property Count is static, and an entity class with an instance property Count. */
  const StaticCountFilterType := Ty("StaticCountFilter", [], false, ClassFlags, Some(ObjectType), [],
                                    [Property("Count", IntType, false, true)])
  const CountEntityType := Ty("CountEntity", [], false, ClassFlags, Some(ObjectType), [],
                              [Property("Count", IntType, false, false)])

  /**
   * A static filter property with an entity property of its name makes the
   * auto-mapping throw an ArgumentException with the table as it was; and
   * validation throws one whatever the state of the table, before reading it.
   */
  lemma StaticFilterPropertyThrows(s: TableState)
    ensures PropertiesAreRuntimeTypes(StaticCountFilterType) && PropertiesAreRuntimeTypes(CountEntityType)
    ensures SameNameMappings(StaticCountFilterType, CountEntityType, 0, s.mappings) == Filled(s.mappings, Fail(InvalidArgument("property")))
    ensures !ReadsTable(StaticCountFilterType, 0)
    ensures ValidationOf(StaticCountFilterType, CountEntityType, s) == Fail(InvalidArgument("property"))
  {
    SimpleTypeFacts(IntType);
  }

  /**
   * On the provider's three findings the builder's predicate step passes the
   * provider's exception on, so an auto-mapped or mapped pair of these types
   * throws; the step over the corrected provider does not.
   */
  lemma FindingInputsThrow(n: nat)
    ensures ComparisonPredicate(RangeFilterOf(BoolType), BoolType, ComparisonType.Equal, n) == Failure(InvalidOperation)
    ensures CorrectedComparisonPredicate(RangeFilterOf(BoolType), BoolType, ComparisonType.Equal, n) == Success(None)
    ensures var r := ComparisonPredicate(RangeFilterOf(IntType), ListOf(IntType), ComparisonType.Equal, n);
      r.Failure? && r.error.InvalidArgument?
    ensures var r := CorrectedComparisonPredicate(RangeFilterOf(IntType), ListOf(IntType), ComparisonType.Equal, n);
      r.Success? && r.value.Some?
    ensures var r := ComparisonPredicate(ICollectionOf(NullableOf(IntType)), IntType, ComparisonType.Equal, n);
      r.Failure? && r.error.InvalidArgument?
    ensures CorrectedComparisonPredicate(ICollectionOf(NullableOf(IntType)), IntType, ComparisonType.Equal, n) == Success(None)
  {
    PredicateProviderFindings.RangeOfBoolIsRefused(n);
    PredicateProviderFindings.RangeAgainstListFails(n);
    PredicateProviderFindings.NullableItemCollectionFails(n);
  }
}
