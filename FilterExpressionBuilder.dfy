/**
 * FilterExpressionBuilder<TFilter, TEntity>: the table of property maps of
 * one filter definition, keyed by the text of the filter property accessor,
 * filled on first use with a map for every filter property that has an
 * entity property of the same name, and the conjunction of the conditions
 * of its maps for a given filter.
 */
module FilterExpressionBuilder {
  import opened Wrappers
  import opened Types
  import opened Expressions
  import opened ExpressionUpdateExtensions
  import opened ExpressionReplacer
  import opened TypeUtils
  import opened PredicateProvider
  import opened FilterPropertyMap
  import opened FilterPropertyMapFactory

  // ---------------------------------------------------------------------------
  // Map keys: the text of an accessor with its parameter renamed x.

  /** The member as its text shows it: the name of a property, not its type. */
  function MemberText(m: MemberRef): MemberRef {
    match m
    case PropertyAccess(name, _) => PropertyAccess(name, ObjectType)
    case HasValue => HasValue
  }

  /**
   * Expression.ToString, as a tree: what the text shows of each node (its
   * kind, operator, member or method, the names of parameters and the
   * constants) and not what it leaves out (ids, the types of parameters,
   * members and conversions).
   */
  function Text(e: Expr): Expr
    decreases e
  {
    match e
    case Binary(_, op, l, r, _, _, _) => Binary(0, op, Text(l), Text(r), None, false, None)
    case Conditional(_, a, b, c) => Conditional(0, Text(a), Text(b), Text(c))
    case Invocation(_, f, args) => Invocation(0, Text(f), TextAll(args))
    case Lambda(_, b, ps) => Lambda(0, Text(b), TextAll(ps))
    case Member(_, x, m) => Member(0, if x.Some? then Some(Text(x.value)) else None, MemberText(m))
    case Call(_, o, m, args) => Call(0, if o.Some? then Some(Text(o.value)) else None, m, TextAll(args))
    case Unary(_, op, x, _, _) => Unary(0, op, Text(x), ObjectType, None)
    case Parameter(_, _, name) => Parameter(0, ObjectType, name)
    case Constant(_, v, _) => Constant(0, v, ObjectType)
    case Other(_, kind, cs) => Other(0, kind, TextAll(cs))
  }

  function TextAll(es: seq<Expr>): seq<Expr>
    decreases es
  {
    if es == [] then [] else [Text(es[0])] + TextAll(es[1..])
  }

  /** The parameter every key shows. */
  const KeyParameter := Parameter(0, ObjectType, "x")

  /**
   * GetPropertyMapKey: the text of the accessor once its parameter is
   * replaced by a new parameter named x, so that accessors differing only in
   * the name of their parameter share a key.
   */
  function GetPropertyMapKey(lam: Expr): (r: Expr)
    requires IsLambda1(lam)
    ensures r.Lambda? && r.params == [KeyParameter]
  {
    var p := lam.params[0];
    var x := Parameter(0, p.ty, "x");
    ReplaceInUnaryLambda(lam, LambdaKind, p, x, 0);
    assert [x][1..] == [] && TextAll([x]) == [KeyParameter] + TextAll([]);
    Text(Replace(lam, LambdaKind, p, x, 0).e)
  }

  /** The key of an accessor reading the member path path. */
  function KeyPath(path: seq<MemberRef>): Expr {
    Lambda(0, TextChain(path), [KeyParameter])
  }

  function TextChain(path: seq<MemberRef>): Expr
    decreases |path|
  {
    if path == [] then KeyParameter
    else Member(0, Some(TextChain(path[..|path| - 1])), MemberText(path[|path| - 1]))
  }

  /** The body e reads the member path path from the node p. */
  predicate IsChain(e: Expr, p: Expr, path: seq<MemberRef>)
    decreases |path|
  {
    if path == [] then e == p
    else e.Member? && e.target.Some? && e.member == path[|path| - 1] && IsChain(e.target.value, p, path[..|path| - 1])
  }

  /** The key of a property lambda x => x.P of the filter type. */
  function PropertyKey(t: Ty, prop: Property): Expr {
    KeyPath([PropertyAccess(prop.name, prop.ty)])
  }

  /** The key of a sub-property lambda x => x.P.S of the filter type. */
  function SubPropertyKey(t: Ty, prop: Property, sub: Property): Expr {
    KeyPath([PropertyAccess(prop.name, prop.ty), PropertyAccess(sub.name, sub.ty)])
  }

  // ---------------------------------------------------------------------------
  // The types the builder is made for.

  /**
   * What the runtime guarantees of a property type: Nullable<T> wraps a
   * value type, also as the item type of a collection, and the T of a range
   * filter is a value type.
   */
  predicate IsRuntimeType(t: Ty) {
    NullableArgIsValue(t) && NullableArgIsValue(EntityOperand(t))
    && (RangeDefinition(t).Some? ==> RangeArgument(t).flags.isValueType)
  }

  predicate PropertiesAreRuntimeTypes(t: Ty) {
    forall p | p in t.properties :: IsRuntimeType(p.ty)
  }

  /**
   * Expression.Property(instance, p) takes p: an instance property without
   * index parameters. For a static property or an indexer it throws an
   * ArgumentException.
   */
  predicate Readable(p: Property) {
    !p.isStatic && !p.isIndexer
  }

  /** Type.GetProperty(name): the first public property of that name, static or not. */
  function FindProperty(props: seq<Property>, name: string): (r: Option<Property>)
    ensures r.Some? ==> r.value in props && r.value.name == name
    ensures r.None? <==> forall p | p in props :: p.name != name
    decreases props
  {
    if props == [] then None
    else if props[0].name == name then Some(props[0])
    else FindProperty(props[1..], name)
  }

  // ---------------------------------------------------------------------------
  // The mapping table as a value.

  /**
   * CreateComparisionPredicat, and the build in Map: the provider's
   * predicate for the two property types when CanBuildPredicateExpression
   * says it can build one, none otherwise; a build that throws propagates.
   */
  function ComparisonPredicate(tf: Ty, te: Ty, c: ComparisonType, n: nat): (r: Result<Option<Built>>)
    ensures r.Success? ==> (r.value.Some? <==> CanBuild(tf, te, c))
    ensures r.Failure? ==> CanBuild(tf, te, c) && (r.error.InvalidOperation? || r.error.InvalidArgument?)
    ensures r.Success? && r.value.Some? ==>
      IsPredicate(r.value.value.e, n, r.value.value.next) && HasParameterTypes(r.value.value.e, tf, te)
    ensures r.Success? && r.value.Some? && !(RangeDefinition(tf).Some? && GetItemTypeIfIEnumerable(te).Some?) ==>
      forall a, b :: Apply2(r.value.value.e, a, b) == Meaning(tf, te, c, a, b)
    ensures WellFormedTypes(tf, te, c) && BuildsCleanly(tf, te) ==> r.Success?
  {
    if !CanBuild(tf, te, c) then Success(None)
    else
      BuildIsPredicate(tf, te, c, n);
      BuildFailureKinds(tf, te, c, n);
      CleanBuildSucceeds(tf, te, c, n);
      var p :- BuildPredicateExpression(tf, te, c, n);
      assert !(RangeDefinition(tf).Some? && GetItemTypeIfIEnumerable(te).Some?) ==>
        forall a, b :: Apply2(p.e, a, b) == Meaning(tf, te, c, a, b) by {
        if !(RangeDefinition(tf).Some? && GetItemTypeIfIEnumerable(te).Some?) {
          BuildMeaning(tf, te, c, n);
        }
      }
      Success(Some(p))
  }

  /**
   * CreateComparisionPredicat over the provider as evidently intended
   * (CorrectedCanBuild and CorrectedBuild): every predicate it gives means
   * Meaning, and over well-formed types it never throws.
   */
  function CorrectedComparisonPredicate(tf: Ty, te: Ty, c: ComparisonType, n: nat): (r: Result<Option<Built>>)
    ensures r.Success? ==> (r.value.Some? <==> CorrectedCanBuild(tf, te, c))
    ensures r.Success? && r.value.Some? ==>
      IsPredicate(r.value.value.e, n, r.value.value.next) && HasParameterTypes(r.value.value.e, tf, te)
      && forall a, b :: Apply2(r.value.value.e, a, b) == Meaning(tf, te, c, a, b)
    ensures r.Failure? ==> r.error.InvalidArgument?
    ensures WellFormedTypes(tf, te, c) ==> r.Success?
  {
    if CorrectedCanBuild(tf, te, c) then
      CorrectedBuildIsPredicate(tf, te, c, n);
      CorrectedBuildMeaning(tf, te, c, n);
      CorrectedBuildOutcome(tf, te, c, n);
      var p :- CorrectedBuild(tf, te, c, n);
      Success(Some(p))
    else Success(None)
  }

  /**
   * Off the range case, and where a collection filter's Contains accepts
   * the entity item type, the as-written and the corrected predicate are
   * the same.
   */
  lemma ComparisonPredicatesAgree(tf: Ty, te: Ty, c: ComparisonType, n: nat)
    requires RangeDefinition(tf).None? && BuildsCleanly(tf, te)
    ensures ComparisonPredicate(tf, te, c, n) == CorrectedComparisonPredicate(tf, te, c, n)
  {
    assert CanBuild(tf, te, c) == CorrectedCanBuild(tf, te, c);
    if CanBuild(tf, te, c) {
      CorrectedBuildAgrees(tf, te, c, n);
    }
  }

  /** The predicate lambda of a built predicate, if any. */
  function PredicateOf(p: Option<Built>): Option<Expr> {
    if p.Some? then Some(p.value.e) else None
  }

  /** The next unused id after a predicate that may not have been built. */
  function NextAfter(p: Option<Built>, n: nat): nat {
    if p.Some? then p.value.next else n
  }

  /** The table and its key order, and the next unused id, with each map as the value of its fields. */
  datatype Mappings = Mappings(keys: seq<Expr>, table: map<Expr, Option<MapState>>, next: nat)

  predicate Distinct(s: seq<Expr>) {
    forall i, j | 0 <= i < j < |s| :: s[i] != s[j]
  }

  /** The key order lists every key of the table once, and every map in it is valid. */
  predicate WellKeyed(m: Mappings) {
    Distinct(m.keys) && (forall k | k in m.table :: k in m.keys) && (forall k | k in m.keys :: k in m.table)
    && forall k | k in m.table && m.table[k].Some? :: ValidState(m.table[k].value)
  }

  /** Setting a Dictionary entry: a new key goes after the others, an existing one keeps its place. */
  function Assign(m: Mappings, k: Expr, v: Option<MapState>, next: nat): (r: Mappings)
    ensures WellKeyed(m) && (v.Some? ==> ValidState(v.value)) ==> WellKeyed(r)
    ensures k in r.table && r.table[k] == v && r.next == next
  {
    Mappings(if k in m.table then m.keys else m.keys + [k], m.table[k := v], next)
  }

  /**
   * The map MapPropertiesWithSameName creates for a filter property and the
   * entity property of its name: accessors of the two properties over
   * parameters named after their types, the Equal predicate when the
   * provider can build one, and null filter values ignored; a build that
   * throws ends the auto-mapping.
   */
  function SameNameMapping(ft: Ty, et: Ty, fp: Property, ep: Property, n: nat): (r: Result<(MapState, nat)>)
    requires IsRuntimeType(fp.ty) && IsRuntimeType(ep.ty)
    ensures r.Success? ==> ValidState(r.value.0) && r.value.1 >= n + 6
    ensures r.Failure? ==>
      CanBuild(fp.ty, ep.ty, ComparisonType.Equal) && (r.error.InvalidOperation? || r.error.InvalidArgument?)
    ensures BuildsCleanly(fp.ty, ep.ty) ==> r.Success?
  {
    var fl := Accessor(ft, ft.name, [PropertyAccess(fp.name, fp.ty)], n);
    var el := Accessor(et, et.name, [PropertyAccess(ep.name, ep.ty)], fl.next);
    var pred :- ComparisonPredicate(fp.ty, ep.ty, ComparisonType.Equal, el.next);
    Success((MapState(fp.ty, ep.ty, fl.e, el.e, PredicateOf(pred), true), NextAfter(pred, el.next)))
  }

  /**
   * One step of MapPropertiesWithSameName: the i-th filter property's map,
   * if it gets one, or the exception that the accessor of a static property
   * (or of an entity indexer of that name) or the predicate's build throws.
   */
  function SameNameStep(ft: Ty, et: Ty, i: nat, m: Mappings): (r: Result<Mappings>)
    requires i < |ft.properties| && PropertiesAreRuntimeTypes(ft) && PropertiesAreRuntimeTypes(et)
    ensures r.Success? && WellKeyed(m) ==> WellKeyed(r.value)
    ensures r.Success? ==> r.value.next >= m.next
  {
    var fp := ft.properties[i];
    var ep := FindProperty(et.properties, fp.name);
    if fp.isIndexer || ep.None? then Success(m)
    else if !Readable(fp) || !Readable(ep.value) then Failure(InvalidArgument("property"))
    else
      var a :- SameNameMapping(ft, et, fp, ep.value, m.next);
      Success(Assign(m, GetPropertyMapKey(a.0.filterProperty), Some(a.0), a.1))
  }

  /**
   * What the auto-mapping leaves: the table, and Pass when every step
   * completed or the exception of the step that threw, in which case the
   * table holds the maps of the steps before it.
   */
  datatype Filled = Filled(mappings: Mappings, outcome: Outcome)

  /** MapPropertiesWithSameName from the i-th filter property on. */
  function SameNameMappings(ft: Ty, et: Ty, i: nat, m: Mappings): (r: Filled)
    requires i <= |ft.properties| && PropertiesAreRuntimeTypes(ft) && PropertiesAreRuntimeTypes(et)
    ensures WellKeyed(m) ==> WellKeyed(r.mappings)
    ensures r.mappings.next >= m.next
    decreases |ft.properties| - i
  {
    if i == |ft.properties| then Filled(m, Pass)
    else
      match SameNameStep(ft, et, i, m)
      case Failure(e) => Filled(m, Fail(e))
      case Success(m') => SameNameMappings(ft, et, i + 1, m')
  }

  /**
   * The PropertyMappings getter: the table is created and auto-mapped on
   * the first read, and read as it is on every later one, even when the
   * first read threw.
   */
  function Initialized(created: bool, ft: Ty, et: Ty, m: Mappings): (r: Filled)
    requires PropertiesAreRuntimeTypes(ft) && PropertiesAreRuntimeTypes(et)
    ensures WellKeyed(m) ==> WellKeyed(r.mappings)
    ensures created ==> r == Filled(m, Pass)
  {
    if created then Filled(m, Pass) else SameNameMappings(ft, et, 0, m)
  }

  /** The table's values in the order of its keys. */
  function Entries(m: Mappings): (r: seq<Option<MapState>>)
    ensures |r| == |m.keys|
    ensures WellKeyed(m) ==> AllValid(r) && forall i | 0 <= i < |r| :: r[i] == m.table[m.keys[i]]
  {
    seq(|m.keys|, i requires 0 <= i < |m.keys| => if m.keys[i] in m.table then m.table[m.keys[i]] else None)
  }

  predicate AllValid(ms: seq<Option<MapState>>) {
    forall i | 0 <= i < |ms| && ms[i].Some? :: ValidState(ms[i].value)
  }

  // ---------------------------------------------------------------------------
  // The expression for a filter.

  /**
   * AddExpressionToAndAlsoExpression: the first condition as it is; a later
   * one with its parameter replaced by the conjunction's, conjoined on the
   * right under the conjunction's parameter.
   */
  function AddToConjunction(acc: Option<Expr>, cond: Expr, n: nat): (r: Built)
    requires IsLambda1(cond) && (acc.Some? ==> IsLambda1(acc.value))
    ensures IsLambda1(r.e) && r.next >= n
    ensures acc.None? ==> r.e == cond
    ensures acc.Some? ==> r.e.params == acc.value.params
  {
    if acc.None? then Built(cond, n)
    else
      var a := acc.value;
      var p := a.params[0];
      var np := Replace(cond.body, AnyKind, cond.params[0], p, n);
      UpdateLambda(a, Binary(np.next, AndAlso, a.body, np.e, None, false, None), NewList([p]), np.next + 1)
  }

  /** The map contributes a condition for the filter. */
  predicate Applicable(m: Option<MapState>, filter: Value) {
    m.Some? && CanBuildCondition(m.value, filter)
  }

  /**
   * The loop of BuildExpression from a given entry on: the maps that are
   * present and can build a condition add it to the conjunction; a
   * condition that throws ends the loop.
   */
  function Conjunction(ms: seq<Option<MapState>>, filter: Value, acc: Option<Expr>, n: nat): (r: Result<BuiltOpt>)
    requires AllValid(ms) && (acc.Some? ==> IsLambda1(acc.value))
    ensures r.Success? ==> r.value.next >= n && (r.value.e.Some? ==> IsLambda1(r.value.e.value))
    ensures r.Success? && acc.Some? ==> r.value.e.Some? && r.value.e.value.params == acc.value.params
    decreases |ms|
  {
    if ms == [] then Success(BuiltOpt(acc, n))
    else if !Applicable(ms[0], filter) then Conjunction(ms[1..], filter, acc, n)
    else
      var cond :- BuildCondition(ms[0].value, filter, n);
      var c := AddToConjunction(acc, cond.e, cond.next);
      Conjunction(ms[1..], filter, Some(c.e), c.next)
  }

  /** HandleEmptyExpression: x => true over the entity type. */
  function HandleEmptyExpression(et: Ty, n: nat): (r: Built)
    ensures IsLambda1(r.e) && r.e.params[0].ty == et && r.next == n + 3
    ensures forall entity :: Truthy(Apply1(r.e, entity))
  {
    var x := Parameter(n, et, "x");
    Built(Lambda(n + 2, Constant(n + 1, Bool(true), BoolType), [x]), n + 3)
  }

  /** BuildExpression once the filter is checked: the conjunction, or HandleEmptyExpression when nothing applies. */
  function BuildResult(ms: seq<Option<MapState>>, filter: Value, et: Ty, n: nat): (r: Result<Built>)
    requires AllValid(ms)
    ensures r.Success? ==> IsLambda1(r.value.e) && r.value.next >= n
  {
    var c :- Conjunction(ms, filter, None, n);
    if c.e.None? then Success(HandleEmptyExpression(et, c.next)) else Success(Built(c.e.value, c.next))
  }

  /** BuildResult in terms of the conjunction it starts from. */
  lemma BuildResultOfConjunction(ms: seq<Option<MapState>>, filter: Value, et: Ty, n: nat, c: Result<BuiltOpt>)
    requires AllValid(ms) && c == Conjunction(ms, filter, None, n)
    ensures c.Failure? ==> BuildResult(ms, filter, et, n) == Failure(c.error)
    ensures c.Success? && c.value.e.None? ==> BuildResult(ms, filter, et, n) == Success(HandleEmptyExpression(et, c.value.next))
    ensures c.Success? && c.value.e.Some? ==> BuildResult(ms, filter, et, n) == Success(Built(c.value.e.value, c.value.next))
  {
  }

  // ---------------------------------------------------------------------------
  // Validation.

  /** IsPropertyMapped looks into the sub-properties of a type that is not primitive, an enum or an IEnumerable. */
  predicate ChecksSubProperties(t: Ty) {
    !t.flags.isPrimitive && !t.flags.isEnum && !IsInheritsFrom(t, IEnumerableDefinition)
  }

  /**
   * The loop of IsPropertyMapped from the i-th sub-property on: a
   * sub-property whose key is in the table makes the property mapped; a
   * static sub-property or an indexer met first has no accessor on the
   * property's value and throws.
   */
  function SubPropertiesMapped(keys: set<Expr>, ft: Ty, prop: Property, i: nat): Result<bool>
    requires i <= |prop.ty.properties|
    decreases |prop.ty.properties| - i
  {
    if i == |prop.ty.properties| then Success(false)
    else
      var sub := prop.ty.properties[i];
      if !Readable(sub) then Failure(InvalidArgument("property"))
      else if SubPropertyKey(ft, prop, sub) in keys then Success(true)
      else SubPropertiesMapped(keys, ft, prop, i + 1)
  }

  /**
   * IsPropertyMapped: the property's own key, or else that of one of its
   * sub-properties, is in the table; a static property has no accessor on
   * the filter and throws.
   */
  function PropertyMapped(keys: set<Expr>, ft: Ty, prop: Property): Result<bool> {
    if !Readable(prop) then Failure(InvalidArgument("property"))
    else if PropertyKey(ft, prop) in keys then Success(true)
    else if ChecksSubProperties(prop.ty) then SubPropertiesMapped(keys, ft, prop, 0)
    else Success(false)
  }

  /** The loop of AssertConfigurationIsValid from the i-th filter property on: the names of the unmapped ones. */
  function UnmappedProperties(keys: set<Expr>, ft: Ty, i: nat): Result<seq<string>>
    requires i <= |ft.properties|
    decreases |ft.properties| - i
  {
    if i == |ft.properties| then Success([])
    else
      var prop := ft.properties[i];
      if prop.isIndexer then UnmappedProperties(keys, ft, i + 1)
      else
        var mapped :- PropertyMapped(keys, ft, prop);
        var rest :- UnmappedProperties(keys, ft, i + 1);
        Success(if mapped then rest else [prop.name] + rest)
  }

  /** AssertConfigurationIsValid: one FilterPropertyMissingMappingException listing every unmapped property. */
  function ConfigurationOutcome(keys: set<Expr>, ft: Ty): Outcome {
    match UnmappedProperties(keys, ft, 0)
    case Failure(e) => Fail(e)
    case Success(names) => if names == [] then Pass else Fail(FilterPropertyMissingMapping(ft.name, names))
  }

  /** A builder's table as a value: whether it has been created, and its contents. */
  datatype TableState = TableState(created: bool, mappings: Mappings)

  /**
   * What AssertConfigurationIsValid reports given what the table's first
   * read leaves: the exception of an auto-mapping that threw, if the loop
   * reads the table; otherwise the outcome for the table's keys.
   */
  function CheckedOutcome(init: Filled, ft: Ty): Outcome {
    if init.outcome.Fail? && ReadsTable(ft, 0) then init.outcome
    else ConfigurationOutcome(init.mappings.table.Keys, ft)
  }

  /** What AssertConfigurationIsValid reports for a builder whose table is in the given state. */
  function ValidationOf(ft: Ty, et: Ty, s: TableState): Outcome
    requires PropertiesAreRuntimeTypes(ft) && PropertiesAreRuntimeTypes(et)
  {
    CheckedOutcome(Initialized(s.created, ft, et, s.mappings), ft)
  }

  /** What AssertConfigurationIsValid leaves behind: the table as it was, or created and (perhaps partly) auto-mapped. */
  predicate KeptOrInitialized(ft: Ty, et: Ty, before: TableState, after: TableState)
    requires PropertiesAreRuntimeTypes(ft) && PropertiesAreRuntimeTypes(et)
  {
    after == before || after == TableState(true, Initialized(before.created, ft, et, before.mappings).mappings)
  }

  /** The table's first read, if it is still to come, completes. */
  predicate InitCompletes(ft: Ty, et: Ty, s: TableState)
    requires PropertiesAreRuntimeTypes(ft) && PropertiesAreRuntimeTypes(et)
  {
    Initialized(s.created, ft, et, s.mappings).outcome.Pass?
  }

  /**
   * Validation does not change what a later validation reports, unless the
   * auto-mapping threw: the later validation then reads the partial table
   * the throw left, and reports on its keys instead of throwing again.
   */
  lemma ValidationIsStable(ft: Ty, et: Ty, before: TableState, after: TableState)
    requires PropertiesAreRuntimeTypes(ft) && PropertiesAreRuntimeTypes(et)
    requires KeptOrInitialized(ft, et, before, after)
    ensures InitCompletes(ft, et, before) ==> ValidationOf(ft, et, after) == ValidationOf(ft, et, before)
    ensures after != before ==>
      ValidationOf(ft, et, after) == ConfigurationOutcome(Initialized(before.created, ft, et, before.mappings).mappings.table.Keys, ft)
  {
  }

  /** The names found so far before those of the rest of the loop; an exception from the rest is the outcome. */
  function PrependNames(names: seq<string>, rest: Result<seq<string>>): Result<seq<string>> {
    if rest.Success? then Success(names + rest.value) else rest
  }

  lemma PrependNothing(rest: Result<seq<string>>)
    ensures PrependNames([], rest) == rest
  {
    if rest.Success? {
      assert [] + rest.value == rest.value;
    }
  }

  lemma PrependStep(names: seq<string>, name: string, rest: Result<seq<string>>)
    ensures PrependNames(names + [name], rest) == PrependNames(names, if rest.Success? then Success([name] + rest.value) else rest)
  {
    if rest.Success? {
      assert (names + [name]) + rest.value == names + ([name] + rest.value);
    }
  }

  /** One step of the loop of AssertConfigurationIsValid over a property that is not an indexer. */
  lemma UnmappedStep(keys: set<Expr>, ft: Ty, i: nat, names: seq<string>, mapped: Result<bool>)
    requires i < |ft.properties| && !ft.properties[i].isIndexer
    requires mapped == PropertyMapped(keys, ft, ft.properties[i])
    ensures mapped.Failure? ==> PrependNames(names, UnmappedProperties(keys, ft, i)) == Failure(mapped.error)
    ensures mapped.Success? ==>
      PrependNames(names, UnmappedProperties(keys, ft, i))
      == PrependNames(if mapped.value then names else names + [ft.properties[i].name], UnmappedProperties(keys, ft, i + 1))
  {
    PrependStep(names, ft.properties[i].name, UnmappedProperties(keys, ft, i + 1));
  }

  /** The outcome of validating the keys once the loop has named every unmapped property, or met an exception. */
  lemma OutcomeOfLoop(keys: set<Expr>, ft: Ty, names: seq<string>, failed: Option<Error>)
    requires failed.Some? ==> UnmappedProperties(keys, ft, 0) == Failure(failed.value)
    requires failed.None? ==> UnmappedProperties(keys, ft, 0) == PrependNames(names, UnmappedProperties(keys, ft, |ft.properties|))
    ensures ConfigurationOutcome(keys, ft) ==
      if failed.Some? then Fail(failed.value)
      else if names == [] then Pass
      else Fail(FilterPropertyMissingMapping(ft.name, names))
  {
    assert names + [] == names;
  }

  /** The index of the first property from the i-th on that is not an indexer, or the length when there is none. */
  function FirstChecked(props: seq<Property>, i: nat): (r: nat)
    requires i <= |props|
    ensures i <= r <= |props| && (r < |props| ==> !props[r].isIndexer)
    ensures forall j | i <= j < r :: props[j].isIndexer
    decreases |props| - i
  {
    if i == |props| || !props[i].isIndexer then i else FirstChecked(props, i + 1)
  }

  /** AssertConfigurationIsValid skips the indexers: they neither read the table nor name a property. */
  lemma {:induction false} SkipIndexers(keys: set<Expr>, ft: Ty, i: nat)
    requires i <= |ft.properties|
    ensures UnmappedProperties(keys, ft, i) == UnmappedProperties(keys, ft, FirstChecked(ft.properties, i))
    ensures ReadsTable(ft, i) == ReadsTable(ft, FirstChecked(ft.properties, i))
    decreases |ft.properties| - i
  {
    if i < |ft.properties| && ft.properties[i].isIndexer {
      SkipIndexers(keys, ft, i + 1);
    }
  }

  /**
   * The exception a property check of AssertConfigurationIsValid throws is
   * the outcome CheckedOutcome gives: the auto-mapping's own on the check
   * that first reads the table, or else the one that validating the keys
   * meets.
   */
  lemma CheckFailureOutcome(init: Filled, ft: Ty, i: nat, e: Error)
    requires i < |ft.properties| && !ft.properties[i].isIndexer
    requires ReadsTable(ft, 0) == ReadsTable(ft, i)
    requires init.outcome.Fail? && !ft.properties[i].isStatic ==> e == init.outcome.error
    requires init.outcome.Pass? || ft.properties[i].isStatic ==>
      UnmappedProperties(init.mappings.table.Keys, ft, 0) == Failure(e)
    ensures CheckedOutcome(init, ft) == Fail(e)
  {
  }

  /**
   * When the first check of AssertConfigurationIsValid, at a property that
   * is neither an indexer nor static, reads the table without an exception,
   * the outcome is that of validating the table's keys.
   */
  lemma CheckSuccessOutcome(init: Filled, ft: Ty, i: nat)
    requires i < |ft.properties| && !ft.properties[i].isIndexer && !ft.properties[i].isStatic
    requires ReadsTable(ft, 0) == ReadsTable(ft, i) && init.outcome.Pass?
    ensures ReadsTable(ft, 0) && CheckedOutcome(init, ft) == ConfigurationOutcome(init.mappings.table.Keys, ft)
  {
  }

  /**
   * Whether the loop of AssertConfigurationIsValid, from the i-th filter
   * property on, reads the table: the first property that is not an indexer
   * is not static, since a static one throws before IsPropertyMapped reads
   * the table.
   */
  predicate ReadsTable(t: Ty, i: nat)
    decreases |t.properties| - i
  {
    if i >= |t.properties| then false
    else if t.properties[i].isIndexer then ReadsTable(t, i + 1)
    else !t.properties[i].isStatic
  }

  // ---------------------------------------------------------------------------
  // Keys of property chains.

  /** Renaming the parameter of a member chain to x and taking its text gives the chain of member names over x. */
  lemma {:induction false} ChainText(e: Expr, p: Expr, x: Expr, path: seq<MemberRef>, n: nat)
    requires p.Parameter? && x.Parameter? && x.name == "x" && IsChain(e, p, path)
    ensures Text(Replace(e, AnyKind, p, x, n).e) == TextChain(path)
    decreases |path|
  {
    if path != [] {
      var t := e.target.value;
      ChainText(t, p, x, path[..|path| - 1], n);
      assert Replace(e, AnyKind, p, x, n) == ReplaceInMember(e, p, x, n);
      var rt := Replace(t, AnyKind, p, x, n);
      assert ReplaceOpt(e.target, AnyKind, p, x, n) == BuiltOpt(Some(rt.e), rt.next);
    }
  }

  /**
   * The key of an accessor reading a member chain from its parameter is the
   * chain of member names: neither the parameter's name, its type, the
   * members' types nor any id shows in it.
   */
  /** The accessor x => x.P that IsPropertyMapped creates reads P and has P's key. */
  lemma PropertyAccessorKey(ft: Ty, prop: Property)
    ensures var lam := Accessor(ft, ft.name, [PropertyAccess(prop.name, prop.ty)], 0).e;
      IsLambda1(lam) && IsChain(lam.body, lam.params[0], [PropertyAccess(prop.name, prop.ty)]) &&
      GetPropertyMapKey(lam) == PropertyKey(ft, prop)
  {
    var lam := Accessor(ft, ft.name, [PropertyAccess(prop.name, prop.ty)], 0).e;
    ChainIsChain(lam.params[0], [PropertyAccess(prop.name, prop.ty)], 0);
    ChainKey(lam, [PropertyAccess(prop.name, prop.ty)]);
  }

  lemma ChainKey(lam: Expr, path: seq<MemberRef>)
    requires IsLambda1(lam) && IsChain(lam.body, lam.params[0], path)
    ensures GetPropertyMapKey(lam) == KeyPath(path)
  {
    var p := lam.params[0];
    var x := Parameter(0, p.ty, "x");
    ReplaceInUnaryLambda(lam, LambdaKind, p, x, 0);
    ChainText(lam.body, p, x, path, 0);
    assert [x][1..] == [] && TextAll([x]) == [KeyParameter] + TextAll([]);
  }

  /** The accessors CreateLambdaThatAccessProperty builds read their path. */
  lemma {:induction false} ChainIsChain(p: Expr, path: seq<MemberRef>, n: nat)
    ensures IsChain(Chain(p, path, n), p, path)
    decreases |path|
  {
    if path != [] {
      ChainIsChain(p, path[..|path| - 1], n);
    }
  }

  // ---------------------------------------------------------------------------
  // The builder.

  class FilterExpressionBuilder {
    /** TFilter and TEntity. */
    const filterType: Ty
    const entityType: Ty
    /** The table exists (_propertyMappings is not null). */
    var mappingsCreated: bool
    /** The table's keys in insertion order, the order Dictionary enumerates its values in. */
    var keys: seq<Expr>
    /** The table; an ignored property maps to null. */
    var table: map<Expr, Option<FilterPropertyMap>>
    /** The next id a node built for this definition takes. */
    var nextId: nat
    var propertyMapFactory: FilterPropertyMapFactory?

    /** The property maps in the table. */
    function Maps(): set<FilterPropertyMap>
      reads this
    {
      set k | k in table && table[k].Some? :: table[k].value
    }

    /** The table as a value, each map given by its fields. */
    function Snapshot(): Mappings
      reads this, Maps()
    {
      Mappings(keys, map k | k in table :: if table[k].Some? then Some(table[k].value.State()) else None, nextId)
    }

    /**
     * The class invariant: the key order lists the table's keys, the maps
     * are valid, the table is empty until it is created, the factory's maps
     * are owned by this builder, and the two types' properties are types as
     * the runtime makes them.
     */
    predicate Valid()
      reads this, Maps()
    {
      WellKeyed(Snapshot()) && (!mappingsCreated ==> keys == [])
      && (propertyMapFactory != null ==> propertyMapFactory.definition == this)
      && PropertiesAreRuntimeTypes(filterType) && PropertiesAreRuntimeTypes(entityType)
    }

    /** Every map now in the table was there before under the same key, or is new. */
    twostate predicate KeepsOrCreatesMaps()
      reads this
    {
      forall k | k in table && table[k].Some? :: (k in old(table) && table[k] == old(table[k])) || fresh(table[k].value)
    }

    /** The factory, once created, stays; a factory created now is new. */
    twostate predicate KeepsFactory()
      reads this
    {
      (old(propertyMapFactory) != null ==> propertyMapFactory == old(propertyMapFactory))
      && (propertyMapFactory != old(propertyMapFactory) ==> propertyMapFactory != null && fresh(propertyMapFactory))
    }

    /** A new builder: no table yet, no factory yet. */
    constructor (filterType: Ty, entityType: Ty)
      requires PropertiesAreRuntimeTypes(filterType) && PropertiesAreRuntimeTypes(entityType)
      ensures Valid() && this.filterType == filterType && this.entityType == entityType
      ensures !mappingsCreated && keys == [] && table == map[] && nextId == 0 && propertyMapFactory == null
    {
      this.filterType := filterType;
      this.entityType := entityType;
      mappingsCreated := false;
      keys := [];
      table := map[];
      nextId := 0;
      propertyMapFactory := null;
    }

    /** The PropertyMapFactory getter: created on first use, with this builder as the maps' definition. */
    method PropertyMapFactory() returns (f: FilterPropertyMapFactory)
      requires Valid()
      modifies this
      ensures Valid() && f == propertyMapFactory && f.definition == this && KeepsFactory()
      ensures Snapshot() == old(Snapshot())
      ensures mappingsCreated == old(mappingsCreated) && keys == old(keys) && table == old(table) && nextId == old(nextId)
    {
      if propertyMapFactory == null {
        propertyMapFactory := new FilterPropertyMapFactory(this);
      }
      f := propertyMapFactory;
    }

    /** Ids up to n are taken. */
    method Allocate(n: nat)
      requires Valid()
      modifies this
      ensures Valid() && nextId == n && Snapshot() == old(Snapshot()).(next := n)
      ensures mappingsCreated == old(mappingsCreated) && keys == old(keys) && table == old(table)
      ensures propertyMapFactory == old(propertyMapFactory)
    {
      ghost var s0 := Snapshot();
      nextId := n;
      forall k | k in table
        ensures Snapshot().table[k] == s0.table[k]
      {
        if table[k].Some? {
          assert table[k].value.State() == old(table[k].value.State());
        }
      }
      assert Snapshot().table == s0.table;
    }

    /** The indexer setter of the table: a new key goes last, an existing one keeps its place. */
    method Store(key: Expr, m: Option<FilterPropertyMap>)
      requires Valid() && mappingsCreated && (m.Some? ==> m.value.Valid())
      modifies this
      ensures Valid() && mappingsCreated && propertyMapFactory == old(propertyMapFactory)
      ensures table == old(table)[key := m] && keys == (if key in old(table) then old(keys) else old(keys) + [key])
      ensures nextId == old(nextId)
      ensures Snapshot() == Assign(old(Snapshot()), key, if m.Some? then Some(m.value.State()) else None, nextId)
    {
      if key !in table {
        keys := keys + [key];
      }
      table := table[key := m];
      StoredSnapshot(key);
    }

    /** The table after Store, as a value: the old one with the key assigned. */
    twostate lemma StoredSnapshot(key: Expr)
      requires key in table
      requires forall k | k in old(table) && old(table[k]).Some? :: unchanged(old(table[k]).value)
      requires table[key].Some? ==> var o := table[key].value; old(allocated(o)) && unchanged(o)
      requires table == old(table)[key := table[key]] && nextId == old(nextId)
      requires keys == (if key in old(table) then old(keys) else old(keys) + [key])
      ensures Snapshot() == Assign(old(Snapshot()), key, if table[key].Some? then Some(table[key].value.State()) else None, nextId)
    {
      ghost var m := table[key];
      ghost var v := if m.Some? then Some(m.value.State()) else None;
      forall k | k in table
        ensures Snapshot().table[k] == old(Snapshot()).table[key := v][k]
      {
        if k != key && table[k].Some? {
          assert table[k].value.State() == old(table[k].value.State());
        }
      }
      assert Snapshot().table == old(Snapshot()).table[key := v];
    }

    /**
     * AddOrReplaceMapping, with AssignMapping, for a filter property and the
     * entity property of its name: accessors of both from new parameters,
     * the Equal predicate when the provider can build one, and a new map
     * under the filter accessor's key; a build that throws leaves the table
     * as it was.
     */
    method AddOrReplaceMapping(fp: Property, ep: Property) returns (o: Outcome)
      requires Valid() && mappingsCreated && fp in filterType.properties && ep in entityType.properties
      modifies this
      ensures Valid() && mappingsCreated && KeepsOrCreatesMaps() && KeepsFactory()
      ensures var a := SameNameMapping(filterType, entityType, fp, ep, old(nextId));
        (a.Failure? ==> o == Fail(a.error) && Snapshot() == old(Snapshot()))
        && (a.Success? ==> o == Pass && Snapshot() == Assign(old(Snapshot()), GetPropertyMapKey(a.value.0.filterProperty), Some(a.value.0), a.value.1))
    {
      var fl := Accessor(filterType, filterType.name, [PropertyAccess(fp.name, fp.ty)], nextId);
      var el := Accessor(entityType, entityType.name, [PropertyAccess(ep.name, ep.ty)], fl.next);
      var pred := ComparisonPredicate(fp.ty, ep.ty, ComparisonType.Equal, el.next);
      if pred.Failure? {
        return Fail(pred.error);
      }
      Allocate(NextAfter(pred.value, el.next));
      var created := CreateMap(MapState(fp.ty, ep.ty, fl.e, el.e, PredicateOf(pred.value), true));
      Store(GetPropertyMapKey(fl.e), Some(created));
      o := Pass;
    }

    /** A map of the given value, from the factory, which is created on first use. */
    method CreateMap(s: MapState) returns (m: FilterPropertyMap)
      requires Valid() && ValidState(s) && s.ignoreNullValues
      modifies this
      ensures Valid() && KeepsFactory() && fresh(m) && m.Valid() && m.State() == s
      ensures Snapshot() == old(Snapshot()) && propertyMapFactory != null
      ensures mappingsCreated == old(mappingsCreated) && keys == old(keys) && table == old(table) && nextId == old(nextId)
    {
      var factory := PropertyMapFactory();
      ghost var s1 := Snapshot();
      var created := factory.CreateFilterPropertyMap(s.filterPropertyType, s.entityPropertyType,
        Some(s.filterProperty), Some(s.entityProperty), s.predicateLambda);
      assert Snapshot() == s1;
      m := created.value;
    }

    /** The body of the loop of MapPropertiesWithSameName for the i-th filter property. */
    method MapPropertyWithSameName(i: nat) returns (o: Outcome)
      requires Valid() && mappingsCreated && i < |filterType.properties|
      modifies this
      ensures Valid() && mappingsCreated && KeepsOrCreatesMaps() && KeepsFactory()
      ensures var r := SameNameStep(filterType, entityType, i, old(Snapshot()));
        (r.Failure? ==> o == Fail(r.error) && Snapshot() == old(Snapshot()))
        && (r.Success? ==> o == Pass && Snapshot() == r.value)
    {
      var fp := filterType.properties[i];
      var ep := FindProperty(entityType.properties, fp.name);
      o := Pass;
      if !fp.isIndexer && ep.Some? {
        if !Readable(fp) || !Readable(ep.value) {
          return Fail(InvalidArgument("property"));
        }
        o := AddOrReplaceMapping(fp, ep.value);
      }
    }

    /**
     * MapPropertiesWithSameName: for every filter property that is not an
     * indexer and has an entity property of its name, in the order of the
     * filter's properties, a new map under the filter property's key; a
     * build that throws ends the loop with the maps made so far in the table.
     */
    method MapPropertiesWithSameName() returns (o: Outcome)
      requires Valid() && mappingsCreated
      modifies this
      ensures Valid() && mappingsCreated && KeepsOrCreatesMaps() && KeepsFactory()
      ensures Filled(Snapshot(), o) == SameNameMappings(filterType, entityType, 0, old(Snapshot()))
    {
      ghost var goal := SameNameMappings(filterType, entityType, 0, Snapshot());
      var i := 0;
      while i < |filterType.properties|
        invariant 0 <= i <= |filterType.properties|
        invariant Valid() && mappingsCreated && KeepsOrCreatesMaps() && KeepsFactory()
        invariant SameNameMappings(filterType, entityType, i, Snapshot()) == goal
      {
        o := MapPropertyWithSameName(i);
        if o.Fail? {
          return;
        }
        i := i + 1;
      }
      o := Pass;
    }

    /**
     * The PropertyMappings getter: the table is created and auto-mapped on
     * the first read only; an auto-mapping that throws leaves the table
     * created and partly filled.
     */
    method PropertyMappings() returns (o: Outcome)
      requires Valid()
      modifies this
      ensures Valid() && mappingsCreated && KeepsOrCreatesMaps() && KeepsFactory()
      ensures Filled(Snapshot(), o) == Initialized(old(mappingsCreated), filterType, entityType, old(Snapshot()))
      ensures old(mappingsCreated) ==> unchanged(this)
    {
      o := Pass;
      if !mappingsCreated {
        mappingsCreated := true;
        o := MapPropertiesWithSameName();
      }
    }

    /** The foreach loop of BuildExpression over the table's values as they are. */
    method Conjoin(filter: Value) returns (r: Result<BuiltOpt>)
      requires Valid()
      ensures r == Conjunction(Entries(Snapshot()), filter, None, nextId)
    {
      ghost var ms := Entries(Snapshot());
      var acc: Option<Expr> := None;
      var n := nextId;
      var i := 0;
      while i < |keys|
        invariant 0 <= i <= |keys|
        invariant acc.Some? ==> IsLambda1(acc.value)
        invariant Conjunction(ms[i..], filter, acc, n) == Conjunction(ms, filter, None, nextId)
      {
        var entry := table[keys[i]];
        assert ms[i] == if entry.Some? then Some(entry.value.State()) else None;
        assert ms[i..][1..] == ms[i + 1..];
        if entry.Some? && entry.value.CanBuildConditionExpression(filter) {
          var c := entry.value.BuildConditionExpression(filter, n);
          if c.Failure? {
            return Failure(c.error);
          }
          var added := AddToConjunction(acc, c.value.e, c.value.next);
          acc, n := Some(added.e), added.next;
        }
        i := i + 1;
      }
      assert ms[i..] == [];
      r := Success(BuiltOpt(acc, n));
    }

    /** BuildExpression once the filter is checked and the table exists: the conjunction, or x => true. */
    method BuildFromTable(filter: Value) returns (r: Result<Expr>)
      requires Valid()
      modifies this
      ensures Valid() && mappingsCreated == old(mappingsCreated) && keys == old(keys) && table == old(table)
      ensures propertyMapFactory == old(propertyMapFactory)
      ensures var b := BuildResult(Entries(old(Snapshot())), filter, entityType, old(nextId));
        (b.Success? ==> r == Success(b.value.e) && Snapshot() == old(Snapshot()).(next := b.value.next))
        && (b.Failure? ==> r == Failure(b.error) && Snapshot() == old(Snapshot()))
    {
      ghost var m := Snapshot();
      var c := Conjoin(filter);
      assert Snapshot() == m && m.next == nextId;
      BuildResultOfConjunction(Entries(m), filter, entityType, m.next, c);
      if c.Failure? {
        return Failure(c.error);
      }
      var acc, n := c.value.e, c.value.next;
      if acc.None? {
        var empty := HandleEmptyExpression(entityType, n);
        acc, n := Some(empty.e), empty.next;
      }
      Allocate(n);
      r := Success(acc.value);
    }

    /**
     * What BuildExpression(filter) does to the table and returns: a null
     * filter is refused before the table is touched; otherwise the table is
     * created and auto-mapped if need be, an auto-mapping that throws ending
     * the call, and the built predicate's nodes take the next ids.
     */
    twostate predicate BuildsExpression(filter: Value, new r: Result<Expr>)
      reads this, Maps()
      requires old(Valid())
    {
      (filter == Null ==> r == Failure(ArgumentNull("filter")) && Snapshot() == old(Snapshot()) && mappingsCreated == old(mappingsCreated))
      && (filter != Null ==>
        var init := old(Initialized(mappingsCreated, filterType, entityType, Snapshot()));
        var m := init.mappings;
        var b := BuildResult(Entries(m), filter, entityType, m.next);
        mappingsCreated
        && (init.outcome.Fail? ==> r == Failure(init.outcome.error) && Snapshot() == m)
        && (init.outcome.Pass? && b.Success? ==> r == Success(b.value.e) && Snapshot() == m.(next := b.value.next))
        && (init.outcome.Pass? && b.Failure? ==> r == Failure(b.error) && Snapshot() == m))
    }

    /**
     * BuildExpression: ArgumentNullException for a null filter; otherwise,
     * over the maps in the order of their keys, the conjunction of the
     * conditions of those that can build one for the filter, or x => true
     * when none can; an auto-mapping or a condition that throws ends the call.
     */
    method BuildExpression(filter: Value) returns (r: Result<Expr>)
      requires Valid()
      modifies this
      ensures Valid() && KeepsOrCreatesMaps() && KeepsFactory()
      ensures BuildsExpression(filter, r)
    {
      if filter == Null {
        return Failure(ArgumentNull("filter"));
      }
      var o := PropertyMappings();
      if o.Fail? {
        return Failure(o.error);
      }
      r := BuildFromTable(filter);
    }

    /**
     * What Map(filterProperty, entityProperty, predicateComparison) does: the
     * accessors are checked for null first; then the provider's predicate
     * for the two property types is built if it can be, a build that throws
     * ending the call; then the factory makes the map, an accessor that does
     * not read a member ending the call with an ArgumentException; and then
     * the map goes into the table, created and auto-mapped first if need
     * be, under the filter accessor's key, unless that auto-mapping throws.
     */
    twostate predicate MapEffect(tfp: Ty, tep: Ty, fp: Option<Expr>, ep: Option<Expr>, c: ComparisonType,
                                 new r: Result<FilterPropertyMap>)
      reads this, Maps(), if r.Success? then {r.value} else {}
    {
      PropertiesAreRuntimeTypes(filterType) && PropertiesAreRuntimeTypes(entityType)
      && (fp.None? ==> r == Failure(ArgumentNull("filterProperty")) && Snapshot() == old(Snapshot()) && mappingsCreated == old(mappingsCreated))
      && (fp.Some? && ep.None? ==> r == Failure(ArgumentNull("entityProperty")) && Snapshot() == old(Snapshot()) && mappingsCreated == old(mappingsCreated))
      && (fp.Some? && ep.Some? && IsLambda1(fp.value) && IsLambda1(ep.value) ==>
            var pred := ComparisonPredicate(tfp, tep, c, old(nextId));
            (pred.Failure? ==> r == Failure(pred.error) && Snapshot() == old(Snapshot()) && mappingsCreated == old(mappingsCreated))
            && (pred.Success? ==>
                  var s := old(Snapshot()).(next := NextAfter(pred.value, old(nextId)));
                  AssignsMapping(old(mappingsCreated), s, tfp, tep, fp.value, ep.value, PredicateOf(pred.value), r)))
    }

    /**
     * What AssignMapping does from the table s: a map the factory refuses
     * ends the call; otherwise the table is read, created and auto-mapped
     * first if need be, an auto-mapping that throws ending the call, and the
     * new map is set under the filter accessor's key.
     */
    twostate predicate AssignsMapping(created: bool, s: Mappings, tfp: Ty, tep: Ty, fl: Expr, el: Expr, pred: Option<Expr>,
                                      new r: Result<FilterPropertyMap>)
      reads this, Maps(), if r.Success? then {r.value} else {}
      requires PropertiesAreRuntimeTypes(filterType) && PropertiesAreRuntimeTypes(entityType) && IsLambda1(fl)
    {
      (!(IsPropertyLambda(fl) && IsPropertyLambda(el)) ==>
         r.Failure? && r.error.InvalidArgument? && Snapshot() == s && mappingsCreated == created)
      && (IsPropertyLambda(fl) && IsPropertyLambda(el) ==>
         var i := Initialized(created, filterType, entityType, s);
         var key := GetPropertyMapKey(fl);
         mappingsCreated
         && (i.outcome.Fail? ==> r == Failure(i.outcome.error) && Snapshot() == i.mappings)
         && (i.outcome.Pass? ==>
               r.Success? && fresh(r.value) && r.value.definition == this
               && r.value.State() == MapState(tfp, tep, fl, el, pred, true)
               && key in table && table[key] == Some(r.value)
               && Snapshot() == Assign(i.mappings, key, Some(r.value.State()), i.mappings.next)))
    }

    /** AssignMapping with a map the factory may refuse: the map is made first, then the table is read and set. */
    method AssignMapping(tfp: Ty, tep: Ty, fl: Expr, el: Expr, pred: Option<Expr>) returns (r: Result<FilterPropertyMap>)
      requires Valid() && IsLambda1(fl) && IsLambda1(el) && (pred.Some? ==> IsLambda2(pred.value))
      modifies this
      ensures Valid() && KeepsOrCreatesMaps() && KeepsFactory()
      ensures AssignsMapping(old(mappingsCreated), old(Snapshot()), tfp, tep, fl, el, pred, r)
    {
      var factory := PropertyMapFactory();
      var created := factory.CreateFilterPropertyMap(tfp, tep, Some(fl), Some(el), pred);
      if created.Failure? {
        return Failure(created.error);
      }
      var m := created.value;
      var key := GetPropertyMapKey(fl);
      assert Snapshot() == old(Snapshot());
      var o := PropertyMappings();
      if o.Fail? {
        return Failure(o.error);
      }
      Store(key, Some(m));
      r := Success(m);
    }

    /** Map(filterProperty, entityProperty, predicateComparison). */
    method Map(tfp: Ty, tep: Ty, fp: Option<Expr>, ep: Option<Expr>, c: ComparisonType) returns (r: Result<FilterPropertyMap>)
      requires Valid()
      requires fp.Some? ==> IsLambda1(fp.value)
      requires ep.Some? ==> IsLambda1(ep.value)
      modifies this
      ensures Valid() && KeepsOrCreatesMaps() && KeepsFactory()
      ensures MapEffect(tfp, tep, fp, ep, c, r)
    {
      if fp.None? {
        return Failure(ArgumentNull("filterProperty"));
      }
      if ep.None? {
        return Failure(ArgumentNull("entityProperty"));
      }
      var pred := ComparisonPredicate(tfp, tep, c, nextId);
      if pred.Failure? {
        return Failure(pred.error);
      }
      Allocate(NextAfter(pred.value, nextId));
      r := AssignMapping(tfp, tep, fp.value, ep.value, PredicateOf(pred.value));
    }

    /** Map(filterProperty, entityProperty): Map with the Equal comparison. */
    method MapEqual(tfp: Ty, tep: Ty, fp: Option<Expr>, ep: Option<Expr>) returns (r: Result<FilterPropertyMap>)
      requires Valid()
      requires fp.Some? ==> IsLambda1(fp.value)
      requires ep.Some? ==> IsLambda1(ep.value)
      modifies this
      ensures Valid() && KeepsOrCreatesMaps() && KeepsFactory()
      ensures MapEffect(tfp, tep, fp, ep, ComparisonType.Equal, r)
    {
      r := Map(tfp, tep, fp, ep, ComparisonType.Equal);
    }

    /** MapRange: its own null checks, then Map with the Equal comparison. */
    method MapRange(tfp: Ty, tep: Ty, fp: Option<Expr>, ep: Option<Expr>) returns (r: Result<FilterPropertyMap>)
      requires Valid()
      requires fp.Some? ==> IsLambda1(fp.value)
      requires ep.Some? ==> IsLambda1(ep.value)
      modifies this
      ensures Valid() && KeepsOrCreatesMaps() && KeepsFactory()
      ensures MapEffect(tfp, tep, fp, ep, ComparisonType.Equal, r)
    {
      if fp.None? {
        return Failure(ArgumentNull("filterProperty"));
      }
      if ep.None? {
        return Failure(ArgumentNull("entityProperty"));
      }
      r := MapEqual(tfp, tep, fp, ep);
    }

    /**
     * Ignore: ArgumentNullException for a null accessor; otherwise the
     * table, created and auto-mapped first if need be, maps the accessor's
     * key to null, and the builder itself is returned; an auto-mapping that
     * throws ends the call.
     */
    method Ignore(fp: Option<Expr>) returns (r: Result<FilterExpressionBuilder>)
      requires Valid() && (fp.Some? ==> IsLambda1(fp.value))
      modifies this
      ensures Valid() && KeepsOrCreatesMaps() && KeepsFactory()
      ensures fp.None? ==> r == Failure(ArgumentNull("filterProperty")) && Snapshot() == old(Snapshot()) && mappingsCreated == old(mappingsCreated)
      ensures fp.Some? ==>
        var i := Initialized(old(mappingsCreated), filterType, entityType, old(Snapshot()));
        var key := GetPropertyMapKey(fp.value);
        mappingsCreated
        && (i.outcome.Fail? ==> r == Failure(i.outcome.error) && Snapshot() == i.mappings)
        && (i.outcome.Pass? ==>
              r == Success(this) && key in table && table[key] == None
              && Snapshot() == Assign(i.mappings, key, None, i.mappings.next))
    {
      if fp.None? {
        return Failure(ArgumentNull("filterProperty"));
      }
      var key := GetPropertyMapKey(fp.value);
      var o := PropertyMappings();
      if o.Fail? {
        return Failure(o.error);
      }
      Store(key, None);
      r := Success(this);
    }

    /**
     * The foreach loop of IsPropertyMapped over the sub-properties of a
     * property, given the property's accessor: the sub-property accessors
     * share the accessor's parameter and read the sub-property from its body.
     */
    method AnySubPropertyMapped(prop: Property, propertyLambda: Expr) returns (r: Result<bool>)
      requires IsLambda1(propertyLambda)
      requires IsChain(propertyLambda.body, propertyLambda.params[0], [PropertyAccess(prop.name, prop.ty)])
      ensures r == SubPropertiesMapped(Snapshot().table.Keys, filterType, prop, 0)
    {
      ghost var keys := Snapshot().table.Keys;
      var j := 0;
      while j < |prop.ty.properties|
        invariant 0 <= j <= |prop.ty.properties|
        invariant SubPropertiesMapped(keys, filterType, prop, j) == SubPropertiesMapped(keys, filterType, prop, 0)
      {
        var sub := prop.ty.properties[j];
        if !Readable(sub) {
          return Failure(InvalidArgument("property"));
        }
        var subLambda := Lambda(0, Member(0, Some(propertyLambda.body), PropertyAccess(sub.name, sub.ty)), propertyLambda.params);
        ghost var path := [PropertyAccess(prop.name, prop.ty), PropertyAccess(sub.name, sub.ty)];
        assert path[..1] == [PropertyAccess(prop.name, prop.ty)];
        ChainKey(subLambda, path);
        if GetPropertyMapKey(subLambda) in table {
          return Success(true);
        }
        j := j + 1;
      }
      r := Success(false);
    }

    /**
     * IsPropertyMapped for a filter property that is not an indexer: the key
     * of its accessor is in the table, created and auto-mapped first if need
     * be, or, for a type that is not primitive, an enum or an IEnumerable,
     * the key of one of its sub-properties is; an auto-mapping that throws
     * ends the call. A static property throws before the table is read.
     */
    method IsPropertyMapped(prop: Property) returns (r: Result<bool>)
      requires Valid() && !prop.isIndexer
      modifies this
      ensures Valid() && KeepsOrCreatesMaps() && KeepsFactory()
      ensures prop.isStatic ==>
        r == Failure(InvalidArgument("property")) && mappingsCreated == old(mappingsCreated) && Snapshot() == old(Snapshot())
      ensures prop.isStatic || old(mappingsCreated) ==> unchanged(this)
      ensures var i := Initialized(old(mappingsCreated), filterType, entityType, old(Snapshot()));
        !prop.isStatic ==>
          mappingsCreated && Snapshot() == i.mappings
          && r == if i.outcome.Fail? then Failure(i.outcome.error) else PropertyMapped(i.mappings.table.Keys, filterType, prop)
    {
      if prop.isStatic {
        return Failure(InvalidArgument("property"));
      }
      var propertyLambda := Accessor(filterType, filterType.name, [PropertyAccess(prop.name, prop.ty)], 0).e;
      var o := PropertyMappings();
      if o.Fail? {
        return Failure(o.error);
      }
      r := PropertyOrSubPropertyMapped(prop, propertyLambda);
    }

    /** The lookups of IsPropertyMapped once the mappings exist: the property's own key first, then its sub-properties'. */
    method PropertyOrSubPropertyMapped(prop: Property, propertyLambda: Expr) returns (r: Result<bool>)
      requires Readable(prop) && propertyLambda == Accessor(filterType, filterType.name, [PropertyAccess(prop.name, prop.ty)], 0).e
      ensures r == PropertyMapped(Snapshot().table.Keys, filterType, prop)
    {
      PropertyAccessorKey(filterType, prop);
      var key := GetPropertyMapKey(propertyLambda);
      if key in table {
        return Success(true);
      }
      if ChecksSubProperties(prop.ty) {
        r := AnySubPropertyMapped(prop, propertyLambda);
        return;
      }
      r := Success(false);
    }

    /** A builder none of whose fields changed and whose table reads the same is still valid. */
    twostate lemma StaysValid()
      requires old(Valid()) && unchanged(this) && Snapshot() == old(Snapshot())
      ensures Valid()
    {
    }

    /** Whether the table exists, and the table. */
    function TableValue(): TableState
      reads this, Maps()
    {
      TableState(mappingsCreated, Snapshot())
    }

    /**
     * The first check of the loop of AssertConfigurationIsValid:
     * IsPropertyMapped for the i-th property, the first that is not an
     * indexer, which may create the table. init is what that first read of
     * the table gives. An exception is the outcome of the whole call;
     * otherwise the loop goes on with the table's keys.
     */
    method CheckFirst(i: nat, ghost init: Filled) returns (mapped: Result<bool>, names: seq<string>)
      requires Valid() && i < |filterType.properties| && !filterType.properties[i].isIndexer
      requires init == Initialized(mappingsCreated, filterType, entityType, Snapshot())
      requires ReadsTable(filterType, 0) == ReadsTable(filterType, i)
      requires UnmappedProperties(init.mappings.table.Keys, filterType, 0)
        == UnmappedProperties(init.mappings.table.Keys, filterType, i)
      modifies this
      ensures Valid() && KeepsOrCreatesMaps() && KeepsFactory()
      ensures if ReadsTable(filterType, 0) then mappingsCreated && Snapshot() == init.mappings
        else mappingsCreated == old(mappingsCreated) && Snapshot() == old(Snapshot())
      ensures mapped.Failure? ==> CheckedOutcome(init, filterType) == Fail(mapped.error)
      ensures var keys := init.mappings.table.Keys;
        mapped.Success? ==>
          ReadsTable(filterType, 0) && init.outcome.Pass?
          && CheckedOutcome(init, filterType) == ConfigurationOutcome(keys, filterType)
          && UnmappedProperties(keys, filterType, 0) == PrependNames(names, UnmappedProperties(keys, filterType, i + 1))
    {
      ghost var keys := init.mappings.table.Keys;
      var prop := filterType.properties[i];
      mapped := IsPropertyMapped(prop);
      names := if mapped.Success? && !mapped.value then [prop.name] else [];
      if init.outcome.Pass? || prop.isStatic {
        assert mapped == PropertyMapped(keys, filterType, prop);
        PrependNothing(UnmappedProperties(keys, filterType, i));
        UnmappedStep(keys, filterType, i, [], mapped);
      }
      if mapped.Failure? {
        CheckFailureOutcome(init, filterType, i, mapped.error);
      } else {
        CheckSuccessOutcome(init, filterType, i);
      }
    }

    /**
     * One iteration of the loop of AssertConfigurationIsValid once the table
     * exists: an indexer is skipped; any other property is checked with
     * IsPropertyMapped, which leaves the table as it is, and named when it
     * is not mapped. An exception ends the loop with the outcome of
     * validating the table's keys.
     */
    method CheckNext(i: nat, ghost keys: set<Expr>, names: seq<string>) returns (failed: Option<Error>, names': seq<string>)
      requires Valid() && i < |filterType.properties|
      requires mappingsCreated && Snapshot().table.Keys == keys
      requires UnmappedProperties(keys, filterType, 0) == PrependNames(names, UnmappedProperties(keys, filterType, i))
      modifies this
      ensures Valid() && unchanged(this) && Snapshot() == old(Snapshot())
      ensures failed.Some? ==> UnmappedProperties(keys, filterType, 0) == Failure(failed.value)
      ensures failed.None? ==>
        UnmappedProperties(keys, filterType, 0) == PrependNames(names', UnmappedProperties(keys, filterType, i + 1))
    {
      var prop := filterType.properties[i];
      failed, names' := None, names;
      if !prop.isIndexer {
        var mapped := IsPropertyMapped(prop);
        UnmappedStep(keys, filterType, i, names, mapped);
        if mapped.Failure? {
          failed := Some(mapped.error);
        } else if !mapped.value {
          names' := names + [prop.name];
        }
      }
    }

    /**
     * The rest of the loop of AssertConfigurationIsValid, from the i-th
     * filter property on, once the check of an earlier property has read the
     * table without an exception: the outcome of validating the table's keys.
     */
    method CheckRemaining(i: nat, ghost keys: set<Expr>, names: seq<string>) returns (r: Outcome)
      requires Valid() && i <= |filterType.properties|
      requires mappingsCreated && Snapshot().table.Keys == keys
      requires UnmappedProperties(keys, filterType, 0) == PrependNames(names, UnmappedProperties(keys, filterType, i))
      modifies this
      ensures Valid() && unchanged(this) && Snapshot() == old(Snapshot())
      ensures r == ConfigurationOutcome(keys, filterType)
    {
      ghost var whole := UnmappedProperties(keys, filterType, 0);
      var names := names;
      var i := i;
      while i < |filterType.properties|
        invariant 0 <= i <= |filterType.properties|
        invariant Valid() && unchanged(this) && Snapshot() == old(Snapshot())
        invariant whole == PrependNames(names, UnmappedProperties(keys, filterType, i))
      {
        var failed;
        failed, names := CheckNext(i, keys, names);
        if failed.Some? {
          OutcomeOfLoop(keys, filterType, names, failed);
          return Fail(failed.value);
        }
        i := i + 1;
      }
      OutcomeOfLoop(keys, filterType, names, None);
      if names != [] {
        return Fail(FilterPropertyMissingMapping(filterType.name, names));
      }
      r := Pass;
    }

    /**
     * The loop of AssertConfigurationIsValid from its first check on, at the
     * i-th filter property, the first that is not an indexer: that check is
     * the one that may create the table, and the loop goes on in
     * CheckRemaining.
     */
    method CheckFrom(i: nat, ghost init: Filled) returns (r: Outcome)
      requires Valid() && i < |filterType.properties| && !filterType.properties[i].isIndexer
      requires init == Initialized(mappingsCreated, filterType, entityType, Snapshot())
      requires ReadsTable(filterType, 0) == ReadsTable(filterType, i)
      requires UnmappedProperties(init.mappings.table.Keys, filterType, 0)
        == UnmappedProperties(init.mappings.table.Keys, filterType, i)
      modifies this
      ensures Valid() && KeepsOrCreatesMaps() && KeepsFactory()
      ensures r == CheckedOutcome(init, filterType)
      ensures if ReadsTable(filterType, 0) then mappingsCreated && Snapshot() == init.mappings
        else mappingsCreated == old(mappingsCreated) && Snapshot() == old(Snapshot())
    {
      var mapped, names := CheckFirst(i, init);
      if mapped.Failure? {
        return Fail(mapped.error);
      }
      ghost var t1 := table;
      r := CheckRemaining(i + 1, init.mappings.table.Keys, names);
      forall k | k in table && table[k].Some?
        ensures (k in old(table) && table[k] == old(table[k])) || fresh(table[k].value)
      {
        if k in t1 && table[k] == t1[k] {
          assert t1[k].Some?;
        }
      }
    }

    /**
     * AssertConfigurationIsValid: every filter property that is not an
     * indexer must be mapped or ignored, or have a mapped sub-property;
     * otherwise one FilterPropertyMissingMappingException names all that
     * are not, in the order of the filter's properties. An auto-mapping that
     * throws on the first check, or a static property, ends the call. The
     * indexers before the first check are skipped (FirstChecked).
     */
    method AssertConfigurationIsValid() returns (r: Outcome)
      requires Valid()
      modifies this
      ensures Valid() && KeepsOrCreatesMaps() && KeepsFactory()
      ensures var i := Initialized(old(mappingsCreated), filterType, entityType, old(Snapshot()));
        r == CheckedOutcome(i, filterType)
        && if ReadsTable(filterType, 0) then mappingsCreated && Snapshot() == i.mappings
           else mappingsCreated == old(mappingsCreated) && Snapshot() == old(Snapshot())
    {
      ghost var init := Initialized(mappingsCreated, filterType, entityType, Snapshot());
      var i := FirstChecked(filterType.properties, 0);
      SkipIndexers(init.mappings.table.Keys, filterType, 0);
      if i == |filterType.properties| {
        return Pass;
      }
      r := CheckFrom(i, init);
    }
  }
}
