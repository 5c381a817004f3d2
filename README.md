# AutoFilter in Dafny

AutoFilter turns a *filter* object into a LINQ predicate over an *entity*
type. A filter type is registered against an entity type in a
`FilterConfiguration`. That creates a `FilterExpressionBuilder`, which maps
every filter property to the entity property of the same name. The user can
then remap a property with `Map`, turn it into a range with `MapRange`, or
drop it with `Ignore`. Each mapping is a `FilterPropertyMap`. It holds a
predicate that `LinqPredicateProvider` built for the two property types:

- a comparison for single values (nullable types are compared by their
  underlying type);
- `Contains` for a collection filter;
- `Any` for a collection entity;
- three inclusive bound checks for a `RangeFilter<T>`.

The auto-mapping runs on the first read of the table, after the table is
marked created. A same-named pair that the provider accepts but whose build
then throws passes its exception to the caller, and leaves the table
created with the maps made before it. A static property cannot be read
from an instance, so the property accessor the builder makes for it throws
an ArgumentException, in the auto-mapping as in `AssertConfigurationIsValid`.

`BuildExpression(filter)` joins, with `&&`, the condition of every map whose
filter value is set. When no map applies, it returns `x => true`. The
conditions are built by substituting into expression trees with
`ExpressionReplacer`.

`AssertConfigurationIsValid` reports every filter property that is neither
mapped nor ignored. `FilterEngine` looks up the builder for a pair of types.
`InitializeFilter` runs the user's `ICreateFilter` initializers against a
configuration.

The model has these parts:

- **Expression trees.** `Expressions` models them as a datatype whose nodes
  carry an `id`. Equal ids stand for .NET's reference identity, and every
  rebuilt node takes a fresh id from a counter threaded through the
  functions.
  - `Eval` gives a tree its value in an environment, and it replaces
    `Compile().DynamicInvoke`.
  - `ExpressionUpdateExtensions` and `ExpressionReplacer` are pure
    functions over these trees.
- **Types.** `Types` and `TypeUtils` model .NET types:
  - a type is a value with generic arguments, a base type, interfaces and
    properties;
  - the reflection queries the core makes are functions over that value.
- **Predicates.** `PredicateProvider` models `BasePredicateProvider` and
  `LinqPredicateProvider` as functions. They return a built tree, or the
  exception the source throws.
- **Stateful objects.** `RangeFilter`, `FilterPropertyMap`,
  `FilterPropertyMapFactory`, `FilterExpressionBuilder`,
  `FilterConfiguration`, `FilterEngine` and `InitializeFilter` are
  classes, because the source updates their fields in place.
  - Each mutating method is specified against a value-level function of
    the old state, for example `Snapshot() == SameNameMappings(...)`.
  - The lemmas in the `*Facts` modules prove what those functions mean.
- **Exceptions** are `Failure` values of `Wrappers.Error`.

## Model

| member | source | states |
|---|---|---|
| ExpressionUpdateExtensions.UpdateBinary | AutoFilter/ExpressionUpdateExtensions.cs:11-18 | A binary node is rebuilt exactly when some child differs; the result carries the given children and keeps the operator and method; a rebuilt node takes the next fresh id |
| ExpressionUpdateExtensions.UpdateConditional | AutoFilter/ExpressionUpdateExtensions.cs:20-27 | A conditional node is returned unchanged exactly when test, ifTrue and ifFalse are its own; otherwise a fresh node with those parts |
| ExpressionUpdateExtensions.UpdateInvocation | AutoFilter/ExpressionUpdateExtensions.cs:29-36 | Kept only when the callee is unchanged and the argument list is the node's own collection (reference comparison); otherwise a fresh node with the new arguments |
| ExpressionUpdateExtensions.UpdateMember | AutoFilter/ExpressionUpdateExtensions.cs:38-45 | Kept exactly when the target is unchanged; the member is preserved |
| ExpressionUpdateExtensions.UpdateCall | AutoFilter/ExpressionUpdateExtensions.cs:47-54 | Kept only when object and argument collection are the node's own; the method is preserved |
| ExpressionUpdateExtensions.UpdateUnary | AutoFilter/ExpressionUpdateExtensions.cs:56-63 | Kept exactly when the operand is unchanged; operator, type and method preserved |
| ExpressionUpdateExtensions.UpdateLambda | AutoFilter/ExpressionUpdateExtensions.cs:65-72 | Kept only when body and parameter collection are the node's own |
| ExpressionReplacer.ReplaceExpression | AutoFilter/ExpressionReplacer.cs:21-56 | ArgumentNullException when expressionToReplace or newExpression is null; a null tree gives null; otherwise the replaced tree |
| ExpressionReplacer.ReplaceExpressionInCollection | AutoFilter/ExpressionReplacer.cs:66-81 | The same null checks; a null list gives null; otherwise a new list of the same length whose items are the items replaced one after another |
| ExpressionReplacer.ReplaceAllSnoc | AutoFilter/ExpressionReplacer.cs:66-81 | Replacing in a list with one more item is replacing in the prefix and then in the last item |
| ExpressionReplacer.ReplaceAllElement | AutoFilter/ExpressionReplacer.cs:66-81 | The i-th replaced item is the replacement of the i-th item, after the ids the earlier items used |
| ExpressionReplacer.ReplaceAbsentKeepsShape | AutoFilter/ExpressionReplacer.cs:21-129 | When the target does not occur, the result has exactly the shape of the input (ids aside) |
| ExpressionReplacer.ReplaceAbsentStableIsIdentity | AutoFilter/ExpressionReplacer.cs:21-129 | When the target does not occur and the tree has no lambda or call/invocation (which always get a new list), the very same tree comes back and no id is used |
| ExpressionReplacer.ReplaceAllAbsentStableIsIdentity | AutoFilter/ExpressionReplacer.cs:66-81 | The same for a list of such trees |
| ExpressionReplacer.LambdaIsAlwaysRebuilt | AutoFilter/ExpressionReplacer.cs:107-113 | A lambda that is not the target is always rebuilt, because its parameters go through a new list |
| ExpressionReplacer.ReplaceInAccessorLambda | AutoFilter/ExpressionReplacer.cs:107-113 | A property-access lambda without the target is rebuilt with the same body and parameters and one fresh id |
| ExpressionReplacer.ReplaceRemovesTarget | AutoFilter/ExpressionReplacer.cs:21-129 | Replacing a parameter by a tree that does not mention it leaves no occurrence of it (where the replacement fits every position the parameter held) |
| ExpressionReplacer.ReplaceAllRemovesTarget | AutoFilter/ExpressionReplacer.cs:66-81 | The same for every item of a list |
| ExpressionReplacer.ReplaceEval | AutoFilter/ExpressionReplacer.cs:21-129 | Substitution lemma: evaluating the replaced tree equals evaluating the original with the parameter bound to the replacement's value |
| ExpressionReplacer.ReplaceFootprint | AutoFilter/ExpressionReplacer.cs:21-129 | The replaced tree mentions and declares only parameters of the original or of the replacement, and stays well formed |
| ExpressionReplacer.ReplaceParameter | AutoFilter/ExpressionReplacer.cs:21-56 | A parameter is swapped only when it is the target and the replacement is a parameter (the cast to ParameterExpression), and is otherwise kept |
| ExpressionReplacer.ReplaceParameterPair | AutoFilter/ExpressionReplacer.cs:107-113 | How a two-parameter list is renamed |
| ExpressionReplacer.ReplaceInPairLambda | AutoFilter/ExpressionReplacer.cs:107-113 | Replacing in a two-parameter lambda rebuilds it from the replaced body and the renamed parameters |
| ExpressionReplacer.ReplaceInUnaryLambda | AutoFilter/ExpressionReplacer.cs:107-113 | The same for a one-parameter lambda |
| TypeUtils.FirstMatching | AutoFilter/TypeUtils.cs:60-82 | The first type of a list whose definition is the base; None exactly when no type matches |
| TypeUtils.GetInheritanceDefinition | AutoFilter/TypeUtils.cs:60-82 | The type itself when it matches; the first matching interface when the base is an interface; a match always matches |
| TypeUtils.InheritanceWalksBaseChain | AutoFilter/TypeUtils.cs:60-82 | For a class base, the result is the first match along the chain of base types |
| TypeUtils.InheritanceNoneForClass | AutoFilter/TypeUtils.cs:60-82 | For a class base, no definition exactly when no type of the base chain matches |
| TypeUtils.IsInheritsFromIsReflexive | AutoFilter/TypeUtils.cs:90-96 | Every type inherits from itself |
| TypeUtils.InheritsFromBaseChain | AutoFilter/TypeUtils.cs:90-96 | A type inherits from every type on its base chain |
| TypeUtils.ItemTypeIfIEnumerableIsFirstMatch | AutoFilter/TypeUtils.cs:14-26 | string has no item type; any other type has one exactly when it, or one of its interfaces, is an IEnumerable<T>, and it is then the T of the type itself or of the first such interface |
| TypeUtils.ItemTypeIfICollectionIsFirstMatch | AutoFilter/TypeUtils.cs:28-37 | An item type exactly when the type, or one of its interfaces, is an ICollection<T>, and then the T of the type itself or of the first such interface |
| TypeUtils.NotNullableTypeIsFirstMatch | AutoFilter/TypeUtils.cs:39-48 | The T of the first Nullable<T> on the base chain that starts with the type itself, so the argument of a Nullable<T>; the type itself when the chain has none |
| TypeUtils.GetNullableType | AutoFilter/TypeUtils.cs:50-58 | A nullable type stays; a value type T becomes Nullable<T>; a reference type is an ArgumentException (MakeGenericType refuses it) |
| TypeUtils.NullableOfIsNullable | AutoFilter/TypeUtils.cs:39-58 | Nullable<T> is nullable and strips back to T |
| TypeUtils.StripAfterWrap | AutoFilter/TypeUtils.cs:39-58 | Stripping after wrapping gives the stripped type, so GetNotNullableType undoes GetNullableType |
| TypeUtils.WrapIsIdempotent | AutoFilter/TypeUtils.cs:50-58 | Wrapping twice is wrapping once |
| TypeUtils.CheckedGetItemTypeIfIEnumerable | AutoFilter/TypeUtils.cs:14-26 | ArgumentNullException("type") for a null type |
| TypeUtils.CheckedGetItemTypeIfICollection | AutoFilter/TypeUtils.cs:28-37 | ArgumentNullException("type") for a null type |
| TypeUtils.CheckedGetNotNullableType | AutoFilter/TypeUtils.cs:39-48 | ArgumentNullException("type") for a null type |
| TypeUtils.CheckedGetNullableType | AutoFilter/TypeUtils.cs:50-58 | ArgumentNullException("type") for a null type |
| TypeUtils.CheckedGetInheritanceDefinition | AutoFilter/TypeUtils.cs:60-82 | ArgumentNullException for a null type, then for a null base type |
| TypeUtils.CheckedIsInheritsFrom | AutoFilter/TypeUtils.cs:90-96 | ArgumentNullException for a null type, then for a null base type |
| TypeUtils.ItemTypesOfWellKnownTypes | AutoFilter/TypeUtils.cs:14-37 | Item types of IEnumerable<T>, ICollection<T>, List<T> and string, as the type utilities compute them |
| TypeUtils.SimpleTypeFacts | AutoFilter/TypeUtils.cs:14-82 | Primitive types are neither enumerable, collections, ranges nor nullable |
| TypeUtils.StringTypeFacts | AutoFilter/TypeUtils.cs:14-82 | string is not a collection, range or nullable, although it is IEnumerable<char> |
| TypeUtils.RangeFilterTypeFacts | AutoFilter/TypeUtils.cs:60-82 | RangeFilter<T> has IRangeFilter<T> as its range definition and is not enumerable |
| TypeUtils.GetMethodInfo | AutoFilter/TypeUtils.cs:104-115 | The method of a call body; none (the source's null) for any other body; ArgumentNullException for a null lambda |
| TypeUtils.ActionMethodInfoAgrees | AutoFilter/TypeUtils.cs:122-128 | The parameterless overload gives the same method as the one-parameter overload |
| TypeUtils.GetMemberInfo | AutoFilter/TypeUtils.cs:160-177 | The member of a member-access body, seen through one Convert; none (the source's null) otherwise; ArgumentNullException for a null lambda |
| TypeUtils.MemberInfoSeesThroughConvert | AutoFilter/TypeUtils.cs:160-177 | A boxed member access gives the member of the access inside |
| RangeFilter.RangeFilter.Unbounded | AutoFilter/RangeFilter.cs:41-47 | The default constructor sets no bound |
| RangeFilter.RangeFilter.Exact | AutoFilter/RangeFilter.cs:49-57 | Sets ExactValue only |
| RangeFilter.RangeFilter.Between | AutoFilter/RangeFilter.cs:59-66 | Sets MinValue and MaxValue, leaves ExactValue unset |
| RangeFilter.RangeFilter.SetMinValue | AutoFilter/RangeFilter.cs:21 | Sets MinValue and nothing else |
| RangeFilter.RangeFilter.SetMaxValue | AutoFilter/RangeFilter.cs:27 | Sets MaxValue and nothing else |
| RangeFilter.RangeFilter.SetExactValue | AutoFilter/RangeFilter.cs:33 | Sets ExactValue and nothing else |
| RangeFilter.RangeFilter.AsValue | AutoFilter/RangeFilter.cs:21-33 | The object as an expression reads it: its three properties read back as the three bounds |
| RangeFilter.NullableNum | AutoFilter/RangeFilter.cs:21-33 | A nullable bound is null exactly when unset and reads back as itself |
| RangeFilter.RangeValue | AutoFilter/RangeFilter.cs:21-33 | A record with exactly the three bound properties, each reading back as its bound and null exactly when that bound is unset |
| PredicateProvider.GetBinaryExpressionType | AutoFilter/BasePredicateProvider.cs:82-100 | Each declared comparison maps to a binary operator that evaluates as that comparison; an undeclared value is an ArgumentException |
| PredicateProvider.GetBinaryExpressionTypeIsInjective | AutoFilter/BasePredicateProvider.cs:82-100 | Distinct comparisons map to distinct operators |
| PredicateProvider.BuildPredicateExpressionNonGeneric | AutoFilter/BasePredicateProvider.cs:53-71 | ArgumentNullException for a null t1, then t2; otherwise the generic build for the two types |
| PredicateProvider.CanCompareDirectly | AutoFilter/LinqPredicateProvider.cs:126-145 | True exactly when the types agree after stripping Nullable and, for an ordering, the type is ordered (not bool, string or an enum) |
| PredicateProvider.CanCompareDirectlyIsSymmetric | AutoFilter/LinqPredicateProvider.cs:126-145 | The order of the two types does not matter |
| PredicateProvider.EqualityIsWeakest | AutoFilter/LinqPredicateProvider.cs:126-145 | Whatever can be ordered can be compared for equality |
| PredicateProvider.OrderingsAgree | AutoFilter/LinqPredicateProvider.cs:126-145 | All four orderings are accepted for the same types |
| PredicateProvider.ComparabilityIgnoresLifting | AutoFilter/LinqPredicateProvider.cs:126-145 | Lifting either type to Nullable does not change comparability |
| PredicateProvider.NullableIsNotRangeOrCollection | AutoFilter/LinqPredicateProvider.cs:23-38 | Nullable<T> is neither a range filter nor a collection |
| PredicateProvider.CanBuild | AutoFilter/LinqPredicateProvider.cs:23-38 | A collection filter with a comparison other than Equal is refused; otherwise builds exactly when the item, range or plain types compare directly |
| PredicateProvider.CreateDirectCompareExpression | AutoFilter/LinqPredicateProvider.cs:147-155 | A two-parameter lambda over the given types that evaluates as the comparison; an undeclared comparison is an ArgumentException |
| PredicateProvider.ChangeParameterTypeToNotNullable | AutoFilter/LinqPredicateProvider.cs:157-164 | The nullable parameter is replaced by a fresh one of the underlying type, in both the body and the parameter list |
| PredicateProvider.ChangeParameterKeepsMeaning | AutoFilter/LinqPredicateProvider.cs:157-164 | The changed lambda evaluates as the original one |
| PredicateProvider.BuildForSingleValueTypes | AutoFilter/LinqPredicateProvider.cs:96-120 | No predicate when the types do not compare directly; otherwise a predicate over the original types; only ArgumentExceptions |
| PredicateProvider.SingleValueMeaning | AutoFilter/LinqPredicateProvider.cs:96-120 | The single-value predicate evaluates as the comparison |
| PredicateProvider.SingleValueSucceeds | AutoFilter/LinqPredicateProvider.cs:96-120 | Comparable types with a declared comparison always give a predicate |
| PredicateProvider.CreateContainsMethodCallExpression | AutoFilter/LinqPredicateProvider.cs:166-175 | Succeeds exactly when ICollection<T>.Contains accepts the entity type; then the predicate holds when the entity value is in the filter collection |
| PredicateProvider.CreateAnyMethodCallExpression | AutoFilter/LinqPredicateProvider.cs:177-192 | Succeeds exactly when the entity type enumerates the predicate's item type and is a reference type, since `Expression.Call` admits only a reference conversion to `IEnumerable<T>`; otherwise an ArgumentException |
| PredicateProvider.CreateAnyMeaning | AutoFilter/LinqPredicateProvider.cs:177-192 | The Any predicate holds when some item of the entity collection satisfies the item predicate |
| PredicateProvider.AnyCallEval | AutoFilter/LinqPredicateProvider.cs:177-192 | Evaluation of the Any call over a quoted lambda |
| PredicateProvider.BuildPredicateExpression | AutoFilter/LinqPredicateProvider.cs:47-81 | An InvalidOperationException whenever CanBuild says no; a failure for a collection entity that is a struct, whose Any call cannot be built; a success is a predicate over the two types |
| PredicateProvider.BuildItemPredicate | AutoFilter/LinqPredicateProvider.cs:47-73 | The predicate on one entity item: range, Contains or single value |
| PredicateProvider.BuildRangePredicateExpression | AutoFilter/LinqPredicateProvider.cs:194-214 | A two-parameter predicate over the range filter and entity types |
| PredicateProvider.CreateNullableComparisonPredicate | AutoFilter/LinqPredicateProvider.cs:216-228 | One bound's comparison, allocated fresh |
| PredicateProvider.BuildIsPredicate | AutoFilter/LinqPredicateProvider.cs:47-81 | Every built predicate is a lambda of two fresh parameters of the right types whose body mentions only them |
| PredicateProvider.RangeIsPredicate | AutoFilter/LinqPredicateProvider.cs:194-214 | The same for the range predicate |
| PredicateProvider.SubstituteEval | AutoFilter/LinqPredicateProvider.cs:216-228 | Substituting both parameters of a predicate evaluates as applying it |
| PredicateProvider.NullableComparisonMeaning | AutoFilter/LinqPredicateProvider.cs:216-228 | A bound comparison holds when the bound is null or compares with the entity value as asked |
| PredicateProvider.NullableComparisonOutcome | AutoFilter/LinqPredicateProvider.cs:216-228 | A bound comparison fails only with an ArgumentException, and succeeds for a value type and a declared comparison when a collection entity is a reference type |
| PredicateProvider.RangeMeaning | AutoFilter/LinqPredicateProvider.cs:194-214 | The range predicate holds when every set bound admits the entity value |
| PredicateProvider.RangeOutcome | AutoFilter/LinqPredicateProvider.cs:194-214 | Once the bounds can be ordered against the entity, the range build fails only with an ArgumentException, and succeeds for a value type when a collection entity is a reference type |
| PredicateProvider.BuildMeaningOffRange | AutoFilter/LinqPredicateProvider.cs:47-120 | Off the range case a built predicate evaluates as Meaning |
| PredicateProvider.AnyMeaning | AutoFilter/LinqPredicateProvider.cs:75-78 | A predicate wrapped in Any means that some item satisfies it |
| PredicateProvider.BuildMeaning | AutoFilter/LinqPredicateProvider.cs:47-81 | Every built predicate evaluates as Meaning: a comparison, Contains, an inclusive range, or some item of a collection entity satisfying one of these |
| PredicateProvider.BuildOffRangeOutcome | AutoFilter/LinqPredicateProvider.cs:47-81 | Off the range case, after CanBuild, only ArgumentExceptions, and success over well-formed types when a collection entity is a reference type |
| PredicateProvider.BuildFailureKinds | AutoFilter/LinqPredicateProvider.cs:47-81 | The build as written throws only InvalidOperationException or ArgumentException |
| PredicateProvider.RangeFailureKinds | AutoFilter/LinqPredicateProvider.cs:194-214 | The same for the range build |
| PredicateProvider.BoundFailureKinds | AutoFilter/LinqPredicateProvider.cs:216-228 | The same for one bound of a range |
| PredicateProvider.CleanBuildSucceeds | AutoFilter/LinqPredicateProvider.cs:23-81 | Once CanBuild accepts well-formed types, the build as written succeeds when a collection entity is a reference type and the Contains item type accepts the entity type, or, for a range, when the entity is not a collection and the bounds can be ordered against it |
| PredicateProvider.CorrectedCanBuild | AutoFilter/LinqPredicateProvider.cs:23-38 | The intended check: it refuses what the range, Contains or Any build cannot complete, a struct collection entity included; off the range case it accepts only what CanBuild accepts |
| PredicateProvider.CorrectedBuild | AutoFilter/LinqPredicateProvider.cs:47-81 | The intended build: it is refused exactly where CorrectedCanBuild says no, and it compares a range with each item of a collection entity |
| PredicateProvider.CorrectedBuildAgrees | AutoFilter/LinqPredicateProvider.cs:47-81 | Off the range case, the corrected build is the build as written |
| PredicateProvider.CorrectedBuildIsPredicate | AutoFilter/LinqPredicateProvider.cs:47-81 | Every corrected build is a fresh two-parameter predicate |
| PredicateProvider.CorrectedBuildMeaning | AutoFilter/LinqPredicateProvider.cs:47-81 | Every corrected build evaluates as Meaning |
| PredicateProvider.CorrectedBuildRejects | AutoFilter/LinqPredicateProvider.cs:23-81 | An InvalidOperationException exactly when CorrectedCanBuild says no |
| PredicateProvider.CorrectedBuildOutcome | AutoFilter/LinqPredicateProvider.cs:47-81 | After CorrectedCanBuild, only ArgumentExceptions, and success over well-formed types |
| PredicateProviderFacts.BuildsAndMeans | AutoFilter/LinqPredicateProvider.cs:47-81 | Off the range case, for a reference-type collection entity and a Contains that accepts the entity item, the build succeeds and means Meaning |
| PredicateProviderFacts.SingleValueBuild | AutoFilter/LinqPredicateProvider.cs:96-120 | For plain comparable types, the build succeeds and evaluates as the comparison |
| PredicateProviderFacts.ContainsBuild | AutoFilter/LinqPredicateProvider.cs:62-67 | For ICollection<T> against T with Equal, the build succeeds and holds when the collection contains the value |
| PredicateProviderFacts.AnyBuild | AutoFilter/LinqPredicateProvider.cs:69-78 | For T against a reference-type collection of T, the build succeeds and holds when some item compares as asked |
| PredicateProviderFacts.CommonItemBuild | AutoFilter/LinqPredicateProvider.cs:62-78 | For two collections of T, the entity one a reference type, the build holds when some entity item is in the filter collection |
| PredicateProviderFacts.EnumerableMeaning | AutoFilter/LinqPredicateProvider.cs:75-78 | Meaning against an enumerable entity is "some item satisfies the item meaning" |
| PredicateProviderFacts.CanBuildOnSingleValues | AutoFilter/LinqPredicateProvider.cs:126-145 | Which comparisons are accepted on numbers, dates, bool, string and enums |
| PredicateProviderFacts.CanBuildOnLiftedTypes | AutoFilter/LinqPredicateProvider.cs:23-38 | Nullable, collection and range wrappers are accepted as the tests expect |
| PredicateProviderFacts.OrderingExamples | AutoFilter.Tests/LinqPredicateProviderTests.cs:233-265 | The orderings on numbers evaluate as the tests assert |
| PredicateProviderFacts.StringEqualityExamples | AutoFilter.Tests/LinqPredicateProviderTests.cs:335-343 | String equality is exact and case-sensitive |
| PredicateProviderFacts.NullableExamples | AutoFilter.Tests/LinqPredicateProviderTests.cs:378-402 | null equals only null, and no ordering holds against null |
| PredicateProviderFacts.ContainsExamples | AutoFilter.Tests/LinqPredicateProviderTests.cs:405-413 | Contains holds for a member and fails for an empty or non-containing collection |
| PredicateProviderFacts.AnyExamples | AutoFilter.Tests/LinqPredicateProviderTests.cs:415-421 | Any over a list of numbers, as the tests assert |
| PredicateProviderFacts.CommonItemExamples | AutoFilter.Tests/LinqPredicateProviderTests.cs:423-429 | Collections match exactly when they share an item |
| PredicateProviderFacts.RefusedSingleValueBuilds | AutoFilter.Tests/LinqPredicateProviderTests.cs:357-376 | Orderings on bool, string and enums throw InvalidOperationException |
| PredicateProviderFacts.RefusedCollectionBuild | AutoFilter.Tests/LinqPredicateProviderTests.cs:432-437 | A collection filter with GreaterThan throws InvalidOperationException |
| PredicateProviderFindings.RangeOverUnorderedTypeIsRefused | AutoFilter/LinqPredicateProvider.cs:194-214 | A range over an unordered type passes CanBuild and then throws InvalidOperationException; the corrected check refuses it |
| PredicateProviderFindings.RangeOfBoolIsRefused | AutoFilter/LinqPredicateProvider.cs:23-38 | RangeFilter<bool> against bool with Equal: accepted, then InvalidOperationException |
| PredicateProviderFindings.RangeAgainstCollectionFails | AutoFilter/LinqPredicateProvider.cs:58-61 | A range filter against a reference-type collection entity: the build as written throws an ArgumentException; the corrected build succeeds and means Meaning |
| PredicateProviderFindings.RangeAgainstCollectionAsWritten | AutoFilter/LinqPredicateProvider.cs:75-78 | The range predicate is built over the collection itself, so Any rejects it |
| PredicateProviderFindings.ValueTypeCollectionFails | AutoFilter/LinqPredicateProvider.cs:177-192 | Whatever CanBuild accepts against a collection entity that is a struct, the build throws, an ArgumentException once the item predicate is built; the corrected check refuses it |
| PredicateProviderFindings.ValueTypeCollectionBuildFails | AutoFilter/LinqPredicateProvider.cs:23-81 | int against ImmutableArray<int> with Equal: accepted, then an ArgumentException from the Any call; the corrected build refuses it |
| PredicateProviderFindings.RangeAgainstListFails | AutoFilter/LinqPredicateProvider.cs:58-78 | RangeFilter<int> against List<int>: accepted, then an ArgumentException; the corrected build succeeds |
| PredicateProviderFindings.UnacceptedContainsFails | AutoFilter/LinqPredicateProvider.cs:166-175 | A collection filter whose Contains does not accept the entity type passes CanBuild and then throws an ArgumentException |
| PredicateProviderFindings.NullableItemCollectionFails | AutoFilter/LinqPredicateProvider.cs:23-38 | ICollection<int?> against int: accepted, then an ArgumentException |
| PredicateProviderFindings.RangeIsInclusive | AutoFilter/LinqPredicateProvider.cs:194-214 | A range holds of v when v equals ExactValue, v <= MaxValue and v >= MinValue, for each bound that is set; a null entity passes only an unbounded range |
| PredicateProviderFindings.BoundMeaning | AutoFilter/LinqPredicateProvider.cs:216-228 | One bound admits a value when it is unset or compares as asked |
| PredicateProviderFindings.RangeBuildIsInclusive | AutoFilter/LinqPredicateProvider.cs:194-214 | The built range predicate keeps inclusive bounds |
| FilterPropertyMap.ValidatePropertyLambda | AutoFilter/FilterPropertyMap.cs:254-260 | Passes exactly for a lambda whose body is a member access; ArgumentNullException for null, ArgumentException otherwise |
| FilterPropertyMap.NullCondition | AutoFilter/FilterPropertyMap.cs:131 | A fresh one-parameter lambda over the entity property type |
| FilterPropertyMap.ReplacePredicateFilterParameter | AutoFilter/FilterPropertyMap.cs:282-290 | A lambda over the predicate's second parameter |
| FilterPropertyMap.GetFullCondition | AutoFilter/FilterPropertyMap.cs:292-296 | A lambda over the entity property's own parameter |
| FilterPropertyMap.Accessor | AutoFilter/FilterExpressionBuilder.cs:322-332 | A one-parameter property-access lambda that passes ValidatePropertyLambda |
| FilterPropertyMap.GetFilterValue | AutoFilter/FilterPropertyMap.cs:262-275 | The value the filter property lambda reads from the filter; a null met on the way reads as null |
| FilterPropertyMap.BuildCondition | AutoFilter/FilterPropertyMap.cs:122-142 | ArgumentNullException for a null filter; InvalidOperationException when the condition cannot be built; a NullReferenceException only when unboxing the value fails (a null for a value type); otherwise a lambda over the entity parameter |
| FilterPropertyMap.FilterPropertyMap.constructor | AutoFilter/FilterPropertyMap.cs:33-47 | All fields as given |
| FilterPropertyMap.FilterPropertyMap.SetFilterProperty | AutoFilter/FilterPropertyMap.cs:56-66 | Validates the lambda and stores it only when valid |
| FilterPropertyMap.FilterPropertyMap.SetEntityProperty | AutoFilter/FilterPropertyMap.cs:73-83 | The same for the entity property |
| FilterPropertyMap.FilterPropertyMap.UsePredicate | AutoFilter/FilterPropertyMap.cs:144-152 | Replaces the predicate and nothing else |
| FilterPropertyMap.FilterPropertyMap.Ignore | AutoFilter/FilterPropertyMap.cs:154-161 | Clears the predicate, after which no filter builds a condition |
| FilterPropertyMap.FilterPropertyMap.WhenNull | AutoFilter/FilterPropertyMap.cs:163-170 | Returns the map itself |
| FilterPropertyMap.FilterPropertyMap.IgnoreProperty | AutoFilter/FilterPropertyMap.cs:235-242 | Sets IgnoreNullValues and nothing else |
| FilterPropertyMap.FilterPropertyMap.FilterByNull | AutoFilter/FilterPropertyMap.cs:244-252 | Clears IgnoreNullValues and nothing else |
| FilterPropertyMap.NewFilterPropertyMap | AutoFilter/FilterPropertyMap.cs:33-47 | ArgumentNullException for filterProperty, entityProperty and definition in that order; an ArgumentException for a lambda that is not a property access; otherwise a fresh map with the given parts |
| FilterPropertyMapFacts.ChainEval | AutoFilter/FilterExpressionBuilder.cs:322-332 | A chain of property accesses evaluates to reading the path |
| FilterPropertyMapFacts.AccessorReadsPath | AutoFilter/FilterExpressionBuilder.cs:322-332 | The accessor lambda applied to a value reads its path |
| FilterPropertyMapFacts.ChainFootprint | AutoFilter/FilterExpressionBuilder.cs:322-332 | A chain mentions only its parameter and declares nothing |
| FilterPropertyMapFacts.AccessorIsClosed | AutoFilter/FilterExpressionBuilder.cs:322-332 | An accessor is a closed property lambda |
| FilterPropertyMapFacts.NullOnTheWayReadsNull | AutoFilter/FilterPropertyMap.cs:262-275 | Reading through a null gives null, as the caught NullReferenceException does |
| FilterPropertyMapFacts.NullFullCondition | AutoFilter/FilterPropertyMap.cs:131-136 | The null condition on the entity property holds exactly when the property is null |
| FilterPropertyMapFacts.PredicateFullCondition | AutoFilter/FilterPropertyMap.cs:282-296 | The substituted predicate on the entity property is the predicate of the filter value and the property value |
| FilterPropertyMapFacts.BuiltConditionMeaning | AutoFilter/FilterPropertyMap.cs:122-142 | A built condition holds of an entity as ConditionMeaning says: the null test for a null or empty value, the predicate otherwise |
| FilterPropertyMapFacts.BuiltConditionAccepts | AutoFilter/FilterPropertyMap.cs:122-142 | A built condition accepts the entity parameter |
| FilterPropertyMapFacts.FilterByNullSelectsNullProperties | AutoFilter/FilterPropertyMap.cs:105-142 | With FilterByNull and a null filter value, the condition selects exactly the entities whose property is null |
| FilterPropertyMapFacts.ValueConditionIsPredicate | AutoFilter/FilterPropertyMap.cs:122-142 | With a set value, the condition is the predicate on that value and the entity's property |
| FilterPropertyMapFactory.FilterPropertyMapFactory.constructor | AutoFilter/FilterPropertyMapFactory.cs:20-24 | Keeps the definition |
| FilterPropertyMapFactory.FilterPropertyMapFactory.CreateFilterPropertyMap | AutoFilter/FilterPropertyMapFactory.cs:40-46 | A new map owned by the factory's definition, with nulls ignored, or the constructor's exceptions |
| FilterPropertyMapFactory.NewFilterPropertyMapFactory | AutoFilter/FilterPropertyMapFactory.cs:20-24 | ArgumentNullException for a null definition |
| FilterExpressionBuilder.GetPropertyMapKey | AutoFilter/FilterExpressionBuilder.cs:313-320 | The key is a one-parameter lambda over the parameter named x |
| FilterExpressionBuilder.FindProperty | AutoFilter/FilterExpressionBuilder.cs:274-276 | The entity property of that name, or none exactly when no property has that name |
| FilterExpressionBuilder.ComparisonPredicate | AutoFilter/FilterExpressionBuilder.cs:299-311 | No predicate exactly when CanBuild says no; otherwise the provider's build as written, whose InvalidOperationException or ArgumentException is passed on; a built predicate is over the two types and means Meaning (off a range filter against a collection entity); a success whenever the types build cleanly |
| FilterExpressionBuilder.CorrectedComparisonPredicate | AutoFilter/FilterExpressionBuilder.cs:299-311 | The same step over the corrected provider: a predicate exactly when CorrectedCanBuild holds, always meaning Meaning; only ArgumentExceptions; a success over well-formed types |
| FilterExpressionBuilder.ComparisonPredicatesAgree | AutoFilter/FilterExpressionBuilder.cs:299-311 | Off the range case and for types that build cleanly, the step as written and the corrected one give the same result |
| FilterExpressionBuilderFacts.FindingInputsThrow | AutoFilter/FilterExpressionBuilder.cs:299-311 | The builder's predicate step throws on `RangeFilter<bool>` against `bool` (InvalidOperationException), `RangeFilter<int>` against `List<int>` and `ICollection<int?>` against `int` (ArgumentException); over the corrected provider it refuses the first and third and builds the second |
| FilterExpressionBuilder.Assign | AutoFilter/FilterExpressionBuilder.cs:292-297 | The table maps the key to the map afterwards and stays well keyed |
| FilterExpressionBuilder.SameNameMapping | AutoFilter/FilterExpressionBuilder.cs:267-290 | The map an auto-mapped pair gets is valid; when the Equal predicate can be built but its build throws, that InvalidOperationException or ArgumentException instead; a success whenever the pair builds cleanly |
| FilterExpressionBuilder.SameNameStep | AutoFilter/FilterExpressionBuilder.cs:269-282 | One loop step keeps the table well keyed and the next free id increasing; an ArgumentException when either property of the pair is static, since `Expression.Property` has no instance to read; otherwise it passes on the exception of the pair's build |
| FilterExpressionBuilder.SameNameMappings | AutoFilter/FilterExpressionBuilder.cs:267-283 | The loop keeps the table well keyed, the partial table a throwing step leaves included |
| FilterExpressionBuilder.Initialized | AutoFilter/FilterExpressionBuilder.cs:67-88 | A table already created is read as it is, without an exception; the first read keeps the table well keyed |
| FilterExpressionBuilder.Entries | AutoFilter/FilterExpressionBuilder.cs:106 | PropertyMappings.Values in insertion order |
| FilterExpressionBuilder.AddToConjunction | AutoFilter/FilterExpressionBuilder.cs:334-347 | The first condition is kept as it is; later ones keep the accumulated parameter |
| FilterExpressionBuilder.Conjunction | AutoFilter/FilterExpressionBuilder.cs:106-116 | The loop's result is a one-parameter lambda over the first condition's parameter |
| FilterExpressionBuilder.HandleEmptyExpression | AutoFilter/FilterExpressionBuilder.cs:211-214 | x => true over the entity type holds for every entity |
| FilterExpressionBuilder.BuildResult | AutoFilter/FilterExpressionBuilder.cs:99-123 | A one-parameter lambda |
| FilterExpressionBuilder.ValidationIsStable | AutoFilter/FilterExpressionBuilder.cs:223-243 | Validation leaves a table that validates the same way when the auto-mapping completes; after a throw, a later validation reports on the keys of the partial table |
| FilterExpressionBuilder.ChainText | AutoFilter/FilterExpressionBuilder.cs:313-320 | Renaming a chain's parameter to x gives the text x.p1.p2... |
| FilterExpressionBuilder.ChainKey | AutoFilter/FilterExpressionBuilder.cs:313-320 | The key of a property chain depends only on its path, not on the parameter's name |
| FilterExpressionBuilder.ChainIsChain | AutoFilter/FilterExpressionBuilder.cs:322-332 | A built chain is a chain of its path |
| FilterExpressionBuilder.FilterExpressionBuilder.constructor | AutoFilter/FilterExpressionBuilder.cs:16-88 | An empty builder whose table is not yet created |
| FilterExpressionBuilder.FilterExpressionBuilder.PropertyMapFactory | AutoFilter/FilterExpressionBuilder.cs:47-60 | Creates the factory on first use, owned by this builder, and then keeps it |
| FilterExpressionBuilder.FilterExpressionBuilder.AddOrReplaceMapping | AutoFilter/FilterExpressionBuilder.cs:285-290 | Stores the map SameNameMapping describes under the filter property's key; when its build throws, the exception and no change |
| FilterExpressionBuilder.FilterExpressionBuilder.MapPropertyWithSameName | AutoFilter/FilterExpressionBuilder.cs:269-282 | One iteration of the auto-mapping loop, as SameNameStep, its exceptions included (a static property of the pair, or the pair's build) |
| FilterExpressionBuilder.FilterExpressionBuilder.MapPropertiesWithSameName | AutoFilter/FilterExpressionBuilder.cs:267-283 | The table and the outcome afterwards are SameNameMappings of the table before: every step's map, or the maps before the step that threw and its exception |
| FilterExpressionBuilder.FilterExpressionBuilder.PropertyMappings | AutoFilter/FilterExpressionBuilder.cs:67-88 | The first read marks the table created before auto-mapping it, so a throw leaves it created and partly filled and passes the exception on; later reads change nothing |
| FilterExpressionBuilder.FilterExpressionBuilder.Conjoin | AutoFilter/FilterExpressionBuilder.cs:106-116 | The foreach loop computes Conjunction of the table's maps in order |
| FilterExpressionBuilder.FilterExpressionBuilder.BuildFromTable | AutoFilter/FilterExpressionBuilder.cs:99-123 | The expression is BuildResult of the table's maps; the table is unchanged |
| FilterExpressionBuilder.FilterExpressionBuilder.BuildExpression | AutoFilter/FilterExpressionBuilder.cs:99-123 | ArgumentNullException for a null filter; otherwise the table is initialized, an auto-mapping exception is passed on with the partial table kept, and BuildResult of its maps is returned |
| FilterExpressionBuilder.FilterExpressionBuilder.AssignMapping | AutoFilter/FilterExpressionBuilder.cs:292-297 | An ArgumentException and no change unless both lambdas are property accesses; otherwise the table is initialized, an auto-mapping exception ends the call with the partial table, and the new map is stored under the filter property's key |
| FilterExpressionBuilder.FilterExpressionBuilder.Map | AutoFilter/FilterExpressionBuilder.cs:150-176 | ArgumentNullException for null lambdas; the provider's exception when its build throws, with no change; otherwise the map for the pair with the provider's predicate, stored under the key as AssignMapping does |
| FilterExpressionBuilder.FilterExpressionBuilder.MapEqual | AutoFilter/FilterExpressionBuilder.cs:134-148 | Map with Equal |
| FilterExpressionBuilder.FilterExpressionBuilder.MapRange | AutoFilter/FilterExpressionBuilder.cs:180-195 | Map with Equal, returning the definition |
| FilterExpressionBuilder.FilterExpressionBuilder.Ignore | AutoFilter/FilterExpressionBuilder.cs:198-208 | ArgumentNullException for a null lambda; otherwise the table is initialized, an auto-mapping exception is passed on, and the key maps to null |
| FilterExpressionBuilder.FilterExpressionBuilder.AnySubPropertyMapped | AutoFilter/FilterExpressionBuilder.cs:357-365 | The sub-property loop computes SubPropertiesMapped: true at the first sub-property whose key is in the table, an ArgumentException at a static or indexed sub-property met before it |
| FilterExpressionBuilder.FilterExpressionBuilder.IsPropertyMapped | AutoFilter/FilterExpressionBuilder.cs:349-370 | A static property throws an ArgumentException before the table is touched; otherwise the table is initialized and an auto-mapping exception passed on, or the property's own key or a sub-property's key is in the table, as PropertyMapped |
| FilterExpressionBuilder.FilterExpressionBuilder.AssertConfigurationIsValid | AutoFilter/FilterExpressionBuilder.cs:223-243 | The outcome is CheckedOutcome of the initialized table: the auto-mapping's exception when the first non-indexer property is not static, otherwise ConfigurationOutcome of its keys, where a static property throws an ArgumentException; the table is created exactly when the first non-indexer property is not static |
| FilterExpressionBuilder.FilterExpressionBuilder.CheckFirst | AutoFilter/FilterExpressionBuilder.cs:227-235 | The first check of the loop, at the first non-indexer property: an exception is the whole call's CheckedOutcome; otherwise the table was read, the auto-mapping passed, and the property's name is added exactly when it is not mapped |
| FilterExpressionBuilder.FilterExpressionBuilder.CheckNext | AutoFilter/FilterExpressionBuilder.cs:227-235 | One later iteration leaves the builder unchanged: an indexer is skipped, an exception is the keys' UnmappedProperties failure, and an unmapped property's name is appended |
| FilterExpressionBuilder.FilterExpressionBuilder.CheckRemaining | AutoFilter/FilterExpressionBuilder.cs:227-239 | The rest of the loop and the final throw leave the builder unchanged and give ConfigurationOutcome of the table's keys |
| FilterExpressionBuilder.FilterExpressionBuilder.CheckFrom | AutoFilter/FilterExpressionBuilder.cs:227-239 | From the first check on, the outcome is CheckedOutcome of the initialized table, and the table is created exactly when the first checked property is not static |
| FilterExpressionBuilderFacts.AddToConjunctionMeaning | AutoFilter/FilterExpressionBuilder.cs:334-347 | The joined lambda holds exactly when the accumulated one and the added one both hold |
| FilterExpressionBuilderFacts.ConjunctionMeaning | AutoFilter/FilterExpressionBuilder.cs:106-116 | The loop throws exactly when some applicable map throws; otherwise its lambda holds exactly when every applicable condition holds |
| FilterExpressionBuilderFacts.BuildResultMeaning | AutoFilter/FilterExpressionBuilder.cs:99-123 | The built expression fails (NullReferenceException) exactly when some applicable map throws; otherwise it holds of an entity exactly when every map holds, and is true when none applies |
| FilterExpressionBuilderFacts.OrderlyEntries | AutoFilter/FilterExpressionBuilder.cs:106 | Maps in a well-built table are valid, hygienic and use separate names |
| FilterExpressionBuilderFacts.SameNameMappingIsOrderly | AutoFilter/FilterExpressionBuilder.cs:267-290 | An auto-mapped map is hygienic and takes only ids from the next free one up to the new next free one |
| FilterExpressionBuilderFacts.SameNameStepIsOrderly | AutoFilter/FilterExpressionBuilder.cs:269-282 | One auto-mapping step keeps the table orderly and adds only maps with new ids |
| FilterExpressionBuilderFacts.AssignNewIsOrderly | AutoFilter/FilterExpressionBuilder.cs:269-282 | Storing a hygienic map whose ids run from the next free one up to the new next free one keeps the table orderly and adds only that map |
| FilterExpressionBuilderFacts.SameNameMappingsAreOrderly | AutoFilter/FilterExpressionBuilder.cs:267-283 | The whole auto-mapping keeps the table orderly, the partial table a throw leaves included, and adds only maps with new ids |
| FilterExpressionBuilderFacts.InitializedIsOrderly | AutoFilter/FilterExpressionBuilder.cs:67-88 | The table's first read keeps it orderly |
| FilterExpressionBuilderFacts.AssignKeepsOrderly | AutoFilter/FilterExpressionBuilder.cs:292-297 | Setting a hygienic map with ids below the next free one, which avoids the table's maps and is avoided by them, keeps the table orderly |
| FilterExpressionBuilderFacts.InitializedThenAssignIsOrderly | AutoFilter/FilterExpressionBuilder.cs:292-297 | Reading the table and then setting such a map keeps it orderly, in both outcomes of the read |
| FilterExpressionBuilderFacts.MapKeepsOrderly | AutoFilter/FilterExpressionBuilder.cs:150-195 | Map and MapRange keep the table orderly in every outcome, for an entity lambda that reads only its own parameter, is numbered below the next free id and is avoided by the maps already set |
| FilterExpressionBuilderFacts.NewMapIsOrderly | AutoFilter/FilterExpressionBuilder.cs:150-195 | The map `Map` makes, with a predicate numbered from the next free id on, is hygienic, takes ids below the new next free one, and avoids and is avoided by every map already set |
| FilterExpressionBuilderFacts.IgnoreKeepsOrderly | AutoFilter/FilterExpressionBuilder.cs:198-208 | Ignore keeps the table orderly in every outcome, its first read included |
| FilterExpressionBuilderFacts.AutoMappedFilterMeaning | AutoFilter/FilterExpressionBuilder.cs:99-123 | For a new builder's table, complete or left partial by a throw, the expression throws exactly when some applicable same-named condition throws, and otherwise means that every one of them holds |
| FilterExpressionBuilderFacts.PropertyKeySameName | AutoFilter/FilterExpressionBuilder.cs:313-320 | Two filter properties get the same key exactly when they share a name |
| FilterExpressionBuilderFacts.SubPropertyKeyIsNotPropertyKey | AutoFilter/FilterExpressionBuilder.cs:313-332 | A sub-property's key is never a property's key |
| FilterExpressionBuilderFacts.SameNameMappingKey | AutoFilter/FilterExpressionBuilder.cs:292-320 | An auto-mapped map is stored under its filter property's key |
| FilterExpressionBuilderFacts.AutoMappedKeys | AutoFilter/FilterExpressionBuilder.cs:267-283 | The auto-mapping adds only keys of the non-indexer filter properties that have a same-named entity property, and all of them when it completes |
| FilterExpressionBuilderFacts.AutoMappingFailure | AutoFilter/FilterExpressionBuilder.cs:267-311 | The auto-mapping throws only an InvalidOperationException or ArgumentException, and only for a same-named pair with a static property, or one that CanBuild accepts with Equal but that does not build cleanly |
| FilterExpressionBuilderFacts.StepFailure | AutoFilter/FilterExpressionBuilder.cs:269-311 | A throwing step ends the loop with the table as it was, for such a pair; a static property of the pair gives an ArgumentException |
| FilterExpressionBuilderFacts.AutoMappedDefaults | AutoFilter/FilterExpressionBuilder.cs:267-290 | Every auto-mapped map ignores null values, has a predicate exactly when CanBuild accepts the pair with Equal, and that predicate evaluates as Meaning for Equal (off a range filter against a collection entity) |
| FilterExpressionBuilderFacts.SameNameMappingReads | AutoFilter/FilterExpressionBuilder.cs:267-290 | An auto-mapped map is over the two properties' types, reads the filter property and the entity property of the same name, and has those defaults |
| FilterExpressionBuilderFacts.UnmappedNames | AutoFilter/FilterExpressionBuilder.cs:223-243 | Validation fails with an exception exactly when a property check throws; otherwise it lists exactly the names of the unmapped non-indexer properties |
| FilterExpressionBuilderFacts.KeyedPropertyIsMapped | AutoFilter/FilterExpressionBuilder.cs:349-355 | A property that is not static and whose key is in the table is mapped |
| FilterExpressionBuilderFacts.AllKeyedEmpty | AutoFilter/FilterExpressionBuilder.cs:223-243 | When every non-indexer property is an instance property and keyed, no name is unmapped |
| FilterExpressionBuilderFacts.AllKeyedPasses | AutoFilter/FilterExpressionBuilder.cs:223-243 | Then validation passes |
| FilterExpressionBuilderFacts.AutoMappedConfigurationIsValid | AutoFilter/FilterExpressionBuilder.cs:223-283 | A filter whose every non-indexer property is an instance property with a same-named instance entity property and an Equal predicate that builds cleanly completes its auto-mapping and validates on a new builder without mapping anything |
| FilterExpressionBuilderFacts.UnmappedDateTimeThrows | AutoFilter/FilterExpressionBuilder.cs:349-365 | A filter with a DateTime property: unmapped, its sub-property walk reaches the static `Now` and validation throws an ArgumentException; mapped, validation passes |
| FilterExpressionBuilderFacts.StaticFilterPropertyThrows | AutoFilter/FilterExpressionBuilder.cs:267-283 | A static filter property with a same-named entity property: the auto-mapping throws an ArgumentException and leaves the table as it was, and validation throws it before reading the table |
| FilterConfiguration.Lookup | AutoFilter/FilterConfiguration.cs:20-28 | A builder exactly when the pair of types is registered, and then that builder |
| FilterConfiguration.Register | AutoFilter/FilterConfiguration.cs:36-48 | Adds the pair only when absent; existing builders are kept |
| FilterConfiguration.Builders | AutoFilter/FilterConfiguration.cs:54-57 | The registered builders in registration order |
| FilterConfiguration.FirstFailure | AutoFilter/FilterConfiguration.cs:62-68 | Passes exactly when every builder passes; otherwise the first failure |
| FilterConfiguration.FirstFailureAt | AutoFilter/FilterConfiguration.cs:62-68 | The first failure is the failure at the first failing index |
| FilterConfiguration.RegisterIsIdempotent | AutoFilter/FilterConfiguration.cs:36-48 | Registering a pair twice changes nothing the second time |
| FilterConfiguration.RegisterGrowsByOne | AutoFilter/FilterConfiguration.cs:36-48 | Registration adds at most one pair |
| FilterConfiguration.LookupAfterRegister | AutoFilter/FilterConfiguration.cs:20-48 | After registration the pair finds its (old or new) builder, and other pairs are unaffected |
| FilterConfiguration.BuildersAfterRegister | AutoFilter/FilterConfiguration.cs:36-57 | A new pair appends its builder to the builder list |
| FilterConfiguration.BuildersAreTheValues | AutoFilter/FilterConfiguration.cs:54-57 | The builder list holds exactly the dictionary's values |
| FilterConfiguration.FilterConfiguration.constructor | AutoFilter/FilterConfiguration.cs:12 | An empty configuration |
| FilterConfiguration.FilterConfiguration.CreateFilter | AutoFilter/FilterConfiguration.cs:36-48 | Returns the registered builder, creating a fresh empty one for a new pair |
| FilterConfiguration.FilterConfiguration.GetFilters | AutoFilter/FilterConfiguration.cs:54-57 | The registered builders, each once |
| FilterConfiguration.FilterConfiguration.AssertConfigurationIsValid | AutoFilter/FilterConfiguration.cs:62-68 | The first failure among the builders' validations, in order; builders after it are not validated |
| FilterConfiguration.SettledOutcomes | AutoFilter/FilterConfiguration.cs:62-68 | Validating leaves every builder whose auto-mapping completes validating to the same outcome, and all outcomes the same when every one completes |
| FilterEngine.FilterEngine.constructor | AutoFilter/FilterEngine.cs:18-21 | Keeps the configuration |
| FilterEngine.FilterEngine.BuildExpression | AutoFilter/FilterEngine.cs:30-40 | FilterNotMappedException with the two type names for an unregistered pair; otherwise the builder's BuildExpression |
| FilterEngine.RepeatedBuildsAgree | AutoFilter/FilterEngine.cs:30-40 | Over an orderly table (see MapKeepsOrderly), the second build reads the table the first left without auto-mapping again. When the first auto-mapping completes, both builds fail alike with the same error, or succeed with expressions of the same meaning. In either case the second expression throws exactly when a map of that table throws, and otherwise means that every applicable map holds |
| InitializeFilter.WhereMembers | AutoFilter/InitializeFilter.cs:103-105 | A type is kept exactly when it is in the input and satisfies the predicate |
| InitializeFilter.WhereAppend | AutoFilter/InitializeFilter.cs:103-105 | Filtering keeps the order: filtering a concatenation is concatenating the filtered parts |
| InitializeFilter.AddAbsent | AutoFilter/InitializeFilter.cs:51-63 | Adds a type only when absent, keeping the collection free of duplicates |
| InitializeFilter.AddAllAbsent | AutoFilter/InitializeFilter.cs:107-110 | Adding elements one at a time keeps the collection free of duplicates and keeps what was there as a prefix |
| InitializeFilter.AddAllAbsentMembers | AutoFilter/InitializeFilter.cs:107-110 | Afterwards the collection holds exactly the old elements and the added ones |
| InitializeFilter.AddAllAbsentAppend | AutoFilter/InitializeFilter.cs:107-110 | Adding the elements of two lists is adding those of the first, then those of the second |
| InitializeFilter.RequestsMembers | AutoFilter/InitializeFilter.cs:144 | A pair is requested exactly when some selected initializer registers it |
| InitializeFilter.RequestsAppend | AutoFilter/InitializeFilter.cs:144 | One more initializer adds its own pairs after those of the ones before it |
| InitializeFilter.SelectedMembers | AutoFilter/InitializeFilter.cs:131-138 | An initializer runs exactly when it was added, is not excluded, is a non-generic, non-abstract class with a default constructor and implements ICreateFilter |
| InitializeFilter.RegisterAddsAbsent | AutoFilter/FilterConfiguration.cs:36-48 | Registration adds the pair to the registered list only when absent |
| InitializeFilter.InitializeFilter.On | AutoFilter/InitializeFilter.cs:29-49 | An initializer over the configuration with nothing added or excluded |
| InitializeFilter.InitializeFilter.Add | AutoFilter/InitializeFilter.cs:51-63 | Adds the type when absent |
| InitializeFilter.InitializeFilter.Exclude | AutoFilter/InitializeFilter.cs:76-88 | Excludes the type when absent |
| InitializeFilter.InitializeFilter.AddFromAssemblyOf | AutoFilter/InitializeFilter.cs:101-113 | Adds every ICreateFilter class of the assembly that is not abstract |
| InitializeFilter.InitializeFilter.Apply | AutoFilter/InitializeFilter.cs:129-147 | The configuration afterwards registers exactly the old pairs plus those the selected initializers request; old builders are kept |
| InitializeFilter.InitializeFilter.RunInitializer | AutoFilter/InitializeFilter.cs:144 | One initializer registers its pairs in order, each only when absent; builders already registered are kept and new ones are fresh |

## Left out

- Ensure.cs is not part of this model. Its `ArgumentNotNull` checks are written out as explicit `ArgumentNull` failures, named after the argument.
- Reflection is modelled as functions over an abstract type value. Left out this way:
  - `Type.GetProperties` and `GetIndexParameters` are fields of that value; each property records whether it is an indexer and whether it is static.
  - `Types.DateTimeType` holds only the static property `Now`, typed by a DateTime without properties: a type value cannot contain itself, and the instance properties of DateTime are left out.
  - `GetGenericTypeMethodInfo` and `GetGenericTypeMemberInfo` (AutoFilter/TypeUtils.cs:137-201) are left out, because `MakeGenericMethod` and `MakeGenericType` over runtime types have no counterpart in the type value.
  - `CreateFilterPropertyMap` (AutoFilter/FilterExpressionBuilder.cs:246-265) calls the factory through reflection. The model calls the factory directly.
- `Compile().DynamicInvoke` is replaced by `Eval`, an evaluator of the expression trees. Exceptions inside the compiled delegate are modelled only where the source catches or relies on them: the NullReferenceException of `GetFilterValue` and of unboxing a null.
- `Expression.ToString` is modelled by a structural text tree, `Text`. Property-map keys compare by that tree, not by the exact .NET string format.
- DateTime, decimal and the integer types are modelled as unbounded integers, without range or overflow. No comparison the core builds depends on width.
- The settable `PredicateProvider` and `PropertyMapFactory` properties (AutoFilter/FilterExpressionBuilder.cs:27-60) are left out. The provider is always `LinqPredicateProvider`, and the factory is created on first use.
- Replacing the dictionary through the `PropertyMappings` setter is also left out.
- `BasePredicateProvider.CanBuildPredicateExpression<T1, T2>` (AutoFilter/BasePredicateProvider.cs:23-26) only forwards to the non-generic overload, so it is covered by `PredicateProvider.CanBuild`.
- `FilterPropertyMap.Map`, `MapRange` and `Ignore(filterProperty)` (AutoFilter/FilterPropertyMap.cs:176-225) only forward to the owning definition, so they are not modelled separately. The builder's own `Map`, `MapRange` and `Ignore` are modelled.
- `FilterPropertyMap.CanBuildConditionExpression` and `BuildConditionExpression` on the class have no contract of their own beyond delegating to `CanBuildCondition` and `BuildCondition`, whose lemmas state their meaning.
- `TypeUtils.GetActionMethodInfo` has no ensures. `TypeUtils.ActionMethodInfoAgrees` states what it returns.
- `FilterConfiguration.GetFilter` uses the `as` cast of the source (AutoFilter/FilterConfiguration.cs:25). That cast never fails in the model, because the dictionary key carries the builder's own types.
- `InitializeFilter.Apply`: `Activator.CreateInstance` and `OfType<ICreateFilter>` are collapsed into one check that the type is runnable. `ICreateFilter.CreateFilter` is user code. It is given as a parameter that says which pairs each initializer registers. `Assembly.GetTypes` is given as a parameter too.
- `FilterPropertyMapFactory.FilterPropertyMapFactory.CreateFilterPropertyMap` and `FilterExpressionBuilder.FilterExpressionBuilder.Map`: exceptions carry their kind and argument name but not their message text.
- Thread safety of the lazily created table and factory is not modelled. The source makes no promise about it.
- Query handlers, NHibernate and `IQueryable` application are outside the core.
- CreateDirectCompareExpression: builds an ordering on `IntPtr` and `UIntPtr` as on any other primitive type, where `Expression.MakeBinary` throws InvalidOperationException. The type value does not single out these two types.
- SingleValueSucceeds: claims a predicate for an ordering on every comparable primitive type, `IntPtr` and `UIntPtr` included, for the same reason.
- FindProperty: takes the first property of the name. `Type.GetProperty` throws AmbiguousMatchException when two properties share the name, as a property hidden with `new` does; the type value holds one property per name in practice and the model has no such exception.
- FilterEngine.RepeatedBuildsAgree: needs the table to be orderly: every map hygienic, its ids below the next free id, and the maps avoiding each other's entity parameters. The auto-mapping, `Ignore`, `Map` and `MapRange` keep that (`SameNameMappingsAreOrderly`, `IgnoreKeepsOrderly`, `MapKeepsOrderly`), `Map` for an entity lambda that reads only its own parameter, is numbered below the builder's next free id and is avoided by the maps already set. A predicate installed with `UsePredicate` on a map that `Map` returned is not covered.
- FilterConfiguration.SettledOutcomes: promises the same outcome again only for builders whose auto-mapping completed. After an auto-mapping threw, a second validation reports on the partial table instead of throwing again.
- `FilterExpressionBuilder.BuildResult`: treats a `BuildConditionExpression` that returns a lambda as never null. The source's `propertyCondition != null` branch (AutoFilter/FilterExpressionBuilder.cs:112) cannot be taken with the map it creates.

## Findings

The builder uses the provider as written, so these exceptions reach
`Map` and the auto-mapping. `FilterExpressionBuilder.CorrectedComparisonPredicate`
is the builder's predicate step over the corrected provider, and
`FilterExpressionBuilder.ComparisonPredicatesAgree` shows that the two steps
agree wherever the provider builds cleanly.

| source | as written | input that shows it | evidently intended | confidence | as-written member | corrected member |
|---|---|---|---|---|---|---|
| AutoFilter/LinqPredicateProvider.cs:23-38 | `CanBuildPredicateExpression` checks a range filter only for the requested comparison, but the range predicate always builds `>=` and `<=` on its bounds (lines 194-214) | `RangeFilter<bool>` against `bool` with `Equal`: CanBuild is true, then BuildPredicateExpression throws InvalidOperationException | a range over a type without ordering is refused by the check | not executed | PredicateProviderFindings.RangeOfBoolIsRefused | PredicateProvider.CorrectedCanBuild |
| AutoFilter/LinqPredicateProvider.cs:58-78 | the range predicate is built over the entity type itself and then wrapped in `Any` for a collection entity | `RangeFilter<int>` against `List<int>` with `Equal`: accepted, then `CreateAnyMethodCallExpression` throws ArgumentException | the range is compared with each item of the collection | not executed | PredicateProviderFindings.RangeAgainstListFails | PredicateProvider.CorrectedBuild |
| AutoFilter/LinqPredicateProvider.cs:166-175 | the check strips `Nullable` before comparing item types, but `ICollection<T>.Contains` takes exactly `T` | `ICollection<int?>` against `int` with `Equal`: accepted, then `Expression.Call` throws ArgumentException | the check refuses what Contains cannot accept | not executed | PredicateProviderFindings.NullableItemCollectionFails | PredicateProvider.CorrectedCanBuild |
| AutoFilter/LinqPredicateProvider.cs:177-192 | `CanBuildPredicateExpression` accepts any `IEnumerable<T>` entity, but `Expression.Call` passes the entity to `AsQueryable(IEnumerable<T>)`, which admits only a reference conversion | `int` against `ImmutableArray<int>` with `Equal`: accepted, then `Expression.Call` throws ArgumentException | a collection entity that is a struct is refused by the check | not executed | PredicateProviderFindings.ValueTypeCollectionBuildFails | PredicateProvider.CorrectedCanBuild |
