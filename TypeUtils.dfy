/** The reflection helpers of TypeUtils over the abstract type universe. */
module TypeUtils {
  import opened Wrappers
  import opened Types
  import opened Expressions

  /**
   * The predicate the inheritance search applies to each candidate: the
   * candidate is the base type itself, or an instantiation of the open generic
   * definition that the base type is.  A generic definition is identified by
   * its name.
   */
  predicate MatchesBase(t: Ty, b: Ty) {
    t == b || (t.IsGenericType() && b.isGenericDefinition && t.name == b.name)
  }

  /** FirstOrDefault(predicate) over a list of interfaces. */
  function FirstMatching(ts: seq<Ty>, b: Ty): (r: Option<Ty>)
    ensures r.None? <==> forall i | 0 <= i < |ts| :: !MatchesBase(ts[i], b)
    ensures r.Some? ==> exists i | 0 <= i < |ts| :: ts[i] == r.value && MatchesBase(ts[i], b)
                          && forall j | 0 <= j < i :: !MatchesBase(ts[j], b)
  {
    if ts == [] then None
    else if MatchesBase(ts[0], b) then Some(ts[0])
    else
      var r := FirstMatching(ts[1..], b);
      assert r.Some? ==> exists i | 0 <= i < |ts[1..]| :: ts[1..][i] == r.value && MatchesBase(ts[1..][i], b)
                          && forall j | 0 <= j < i :: !MatchesBase(ts[1..][j], b);
      assert r.Some? ==> exists i | 1 <= i < |ts| :: ts[i] == r.value && MatchesBase(ts[i], b)
                          && forall j | 1 <= j < i :: !MatchesBase(ts[j], b);
      r
  }

  /**
   * GetInheritanceDefinition: the type itself if it matches; for an interface
   * base, the first matching interface; otherwise the search continues up the
   * base-type chain and ends with none at the root.
   */
  function GetInheritanceDefinition(t: Ty, b: Ty): (r: Option<Ty>)
    ensures r.Some? ==> MatchesBase(r.value, b)
    ensures MatchesBase(t, b) ==> r == Some(t)
    ensures !MatchesBase(t, b) && b.flags.isInterface ==> r == FirstMatching(t.interfaces, b)
    decreases t
  {
    if MatchesBase(t, b) then Some(t)
    else if b.flags.isInterface then FirstMatching(t.interfaces, b)
    else if t.baseType.Some? then GetInheritanceDefinition(t.baseType.value, b)
    else None
  }

  /** The base-type chain of a type, starting with the type itself. */
  function BaseChain(t: Ty): (r: seq<Ty>)
    ensures |r| > 0 && r[0] == t
    decreases t
  {
    if t.baseType.Some? then [t] + BaseChain(t.baseType.value) else [t]
  }

  /** For a base that is not an interface, the search returns the first matching type of the base chain. */
  lemma {:induction false} InheritanceWalksBaseChain(t: Ty, b: Ty)
    requires !b.flags.isInterface
    ensures GetInheritanceDefinition(t, b) == FirstMatching(BaseChain(t), b)
    decreases t
  {
    if t.baseType.Some? {
      InheritanceWalksBaseChain(t.baseType.value, b);
      assert BaseChain(t)[1..] == BaseChain(t.baseType.value);
    }
  }

  /** For a base that is not an interface, the result is none exactly when nothing on the base chain matches. */
  lemma InheritanceNoneForClass(t: Ty, b: Ty)
    requires !b.flags.isInterface
    ensures GetInheritanceDefinition(t, b).None? <==> forall i | 0 <= i < |BaseChain(t)| :: !MatchesBase(BaseChain(t)[i], b)
  {
    InheritanceWalksBaseChain(t, b);
  }

  /** IsInheritsFrom: the inheritance search finds something. */
  predicate IsInheritsFrom(t: Ty, b: Ty) {
    GetInheritanceDefinition(t, b).Some?
  }

  lemma IsInheritsFromIsReflexive(t: Ty)
    ensures IsInheritsFrom(t, t)
  {
  }

  /** A type inherits from every class on its base chain. */
  lemma InheritsFromBaseChain(t: Ty, i: nat)
    requires i < |BaseChain(t)|
    requires !BaseChain(t)[i].flags.isInterface
    ensures IsInheritsFrom(t, BaseChain(t)[i])
  {
    var b := BaseChain(t)[i];
    InheritanceWalksBaseChain(t, b);
    assert MatchesBase(BaseChain(t)[i], b);
  }

  /** GetGenericArguments()[0] of a found definition; the open definition yields its own parameter. */
  function FirstGenericArgument(d: Ty): Ty {
    if |d.args| > 0 then d.args[0] else GenericParameter
  }

  /** The generic parameter T of an open definition. */
  const GenericParameter := Ty("T", [], false, TypeFlags(false, false, false, false, false, false, false), None, [], [])

  /**
   * GetItemTypeIfIEnumerable: T of the type's IEnumerable<T>, except for
   * string. ItemTypeIfIEnumerableIsFirstMatch says which T.
   */
  function GetItemTypeIfIEnumerable(t: Ty): Option<Ty> {
    if t == StringType then None
    else match GetInheritanceDefinition(t, IEnumerableDefinition)
      case None => None
      case Some(d) => Some(FirstGenericArgument(d))
  }

  /**
   * string has no item type. Any other type has one exactly when it, or one
   * of its interfaces, is an IEnumerable<T>: the type's own argument when it
   * is one, and otherwise that of the first IEnumerable<> among its
   * interfaces.
   */
  lemma ItemTypeIfIEnumerableIsFirstMatch(t: Ty)
    ensures var r := GetItemTypeIfIEnumerable(t);
      (t == StringType ==> r.None?)
      && (t != StringType ==>
            (r.Some? <==> MatchesBase(t, IEnumerableDefinition) || exists i | 0 <= i < |t.interfaces| :: MatchesBase(t.interfaces[i], IEnumerableDefinition)))
      && (r.Some? && MatchesBase(t, IEnumerableDefinition) ==> r.value == FirstGenericArgument(t))
      && (r.Some? && !MatchesBase(t, IEnumerableDefinition) ==>
            exists i | 0 <= i < |t.interfaces| :: MatchesBase(t.interfaces[i], IEnumerableDefinition)
              && r.value == FirstGenericArgument(t.interfaces[i])
              && forall j | 0 <= j < i :: !MatchesBase(t.interfaces[j], IEnumerableDefinition))
  {
  }

  /**
   * GetItemTypeIfICollection: T of the type's ICollection<T>.
   * ItemTypeIfICollectionIsFirstMatch says which T.
   */
  function GetItemTypeIfICollection(t: Ty): Option<Ty> {
    match GetInheritanceDefinition(t, ICollectionDefinition)
    case None => None
    case Some(d) => Some(FirstGenericArgument(d))
  }

  /**
   * A type has an ICollection item type exactly when it, or one of its
   * interfaces, is an ICollection<T>: the type's own argument when it is
   * one, and otherwise that of the first ICollection<> among its interfaces.
   */
  lemma ItemTypeIfICollectionIsFirstMatch(t: Ty)
    ensures var r := GetItemTypeIfICollection(t);
      (r.Some? <==> MatchesBase(t, ICollectionDefinition) || exists i | 0 <= i < |t.interfaces| :: MatchesBase(t.interfaces[i], ICollectionDefinition))
      && (r.Some? && MatchesBase(t, ICollectionDefinition) ==> r.value == FirstGenericArgument(t))
      && (r.Some? && !MatchesBase(t, ICollectionDefinition) ==>
            exists i | 0 <= i < |t.interfaces| :: MatchesBase(t.interfaces[i], ICollectionDefinition)
              && r.value == FirstGenericArgument(t.interfaces[i])
              && forall j | 0 <= j < i :: !MatchesBase(t.interfaces[j], ICollectionDefinition))
  {
  }

  /**
   * GetNotNullableType: T for Nullable<T>, anything else unchanged.
   * NotNullableTypeIsFirstMatch says which T.
   */
  function GetNotNullableType(t: Ty): Ty {
    match GetInheritanceDefinition(t, NullableDefinition)
    case None => t
    case Some(d) => FirstGenericArgument(d)
  }

  /**
   * The argument of the first Nullable<> on the type's base chain, starting
   * with the type itself; the type itself when the chain has none.
   */
  lemma NotNullableTypeIsFirstMatch(t: Ty)
    ensures var r := GetNotNullableType(t);
      ((forall i | 0 <= i < |BaseChain(t)| :: !MatchesBase(BaseChain(t)[i], NullableDefinition)) ==> r == t)
      && (MatchesBase(t, NullableDefinition) ==> r == FirstGenericArgument(t))
      && (r != t ==>
            exists i | 0 <= i < |BaseChain(t)| :: MatchesBase(BaseChain(t)[i], NullableDefinition)
              && r == FirstGenericArgument(BaseChain(t)[i])
              && forall j | 0 <= j < i :: !MatchesBase(BaseChain(t)[j], NullableDefinition))
  {
    InheritanceWalksBaseChain(t, NullableDefinition);
  }

  /**
   * GetNullableType: Nullable<T> unchanged; any other value type wrapped;
   * MakeGenericType rejects a reference type with an ArgumentException.
   */
  function GetNullableType(t: Ty): (r: Result<Ty>)
    ensures IsInheritsFrom(t, NullableDefinition) ==> r == Success(t)
    ensures !IsInheritsFrom(t, NullableDefinition) && t.flags.isValueType ==> r == Success(NullableOf(t))
    ensures !IsInheritsFrom(t, NullableDefinition) && !t.flags.isValueType ==> r.Failure? && r.error.InvalidArgument?
  {
    if IsInheritsFrom(t, NullableDefinition) then Success(t)
    else if t.flags.isValueType then Success(NullableOf(t))
    else Failure(InvalidArgument(""))
  }

  /** Nullable<T> is recognised as nullable and stripped back to T. */
  lemma NullableOfIsNullable(t: Ty)
    ensures IsInheritsFrom(NullableOf(t), NullableDefinition)
    ensures GetNotNullableType(NullableOf(t)) == t
  {
    assert MatchesBase(NullableOf(t), NullableDefinition);
  }

  /** For a non-nullable value type, strip(wrap(t)) == t; for any value type, strip(wrap(t)) == strip(t). */
  lemma StripAfterWrap(t: Ty)
    requires t.flags.isValueType
    ensures GetNullableType(t).Success?
    ensures GetNotNullableType(GetNullableType(t).value) == GetNotNullableType(t)
    ensures !IsInheritsFrom(t, NullableDefinition) ==> GetNotNullableType(GetNullableType(t).value) == t
  {
    if !IsInheritsFrom(t, NullableDefinition) {
      NullableOfIsNullable(t);
    }
  }

  /** Wrapping is idempotent. */
  lemma WrapIsIdempotent(t: Ty)
    requires GetNullableType(t).Success?
    ensures GetNullableType(GetNullableType(t).value) == GetNullableType(t)
  {
    if !IsInheritsFrom(t, NullableDefinition) {
      NullableOfIsNullable(t);
    }
  }

  // The public entry points, where a missing (null) Type argument is rejected first.

  function CheckedGetItemTypeIfIEnumerable(t: Option<Ty>): (r: Result<Option<Ty>>)
    ensures t.None? ==> r == Failure(ArgumentNull("type"))
    ensures t.Some? ==> r == Success(GetItemTypeIfIEnumerable(t.value))
  {
    if t.None? then Failure(ArgumentNull("type")) else Success(GetItemTypeIfIEnumerable(t.value))
  }

  function CheckedGetItemTypeIfICollection(t: Option<Ty>): (r: Result<Option<Ty>>)
    ensures t.None? ==> r == Failure(ArgumentNull("type"))
    ensures t.Some? ==> r == Success(GetItemTypeIfICollection(t.value))
  {
    if t.None? then Failure(ArgumentNull("type")) else Success(GetItemTypeIfICollection(t.value))
  }

  function CheckedGetNotNullableType(t: Option<Ty>): (r: Result<Ty>)
    ensures t.None? ==> r == Failure(ArgumentNull("type"))
    ensures t.Some? ==> r == Success(GetNotNullableType(t.value))
  {
    if t.None? then Failure(ArgumentNull("type")) else Success(GetNotNullableType(t.value))
  }

  function CheckedGetNullableType(t: Option<Ty>): (r: Result<Ty>)
    ensures t.None? ==> r == Failure(ArgumentNull("type"))
    ensures t.Some? ==> r == GetNullableType(t.value)
  {
    if t.None? then Failure(ArgumentNull("type")) else GetNullableType(t.value)
  }

  function CheckedGetInheritanceDefinition(t: Option<Ty>, b: Option<Ty>): (r: Result<Option<Ty>>)
    ensures t.None? ==> r == Failure(ArgumentNull("type"))
    ensures t.Some? && b.None? ==> r == Failure(ArgumentNull("baseType"))
    ensures t.Some? && b.Some? ==> r == Success(GetInheritanceDefinition(t.value, b.value))
  {
    if t.None? then Failure(ArgumentNull("type"))
    else if b.None? then Failure(ArgumentNull("baseType"))
    else Success(GetInheritanceDefinition(t.value, b.value))
  }

  function CheckedIsInheritsFrom(t: Option<Ty>, b: Option<Ty>): (r: Result<bool>)
    ensures t.None? ==> r == Failure(ArgumentNull("type"))
    ensures t.Some? && b.None? ==> r == Failure(ArgumentNull("baseType"))
    ensures t.Some? && b.Some? ==> r == Success(IsInheritsFrom(t.value, b.value))
  {
    if t.None? then Failure(ArgumentNull("type"))
    else if b.None? then Failure(ArgumentNull("baseType"))
    else Success(IsInheritsFrom(t.value, b.value))
  }

  // Facts of the well-known types.

  lemma ItemTypesOfWellKnownTypes(t: Ty)
    ensures GetItemTypeIfIEnumerable(StringType) == None
    ensures GetItemTypeIfIEnumerable(IEnumerableOf(t)) == Some(t)
    ensures GetItemTypeIfIEnumerable(ICollectionOf(t)) == Some(t)
    ensures GetItemTypeIfIEnumerable(ListOf(t)) == Some(t)
    ensures GetItemTypeIfICollection(ICollectionOf(t)) == Some(t)
    ensures GetItemTypeIfICollection(ListOf(t)) == Some(t)
    ensures GetItemTypeIfICollection(IEnumerableOf(t)) == None
    ensures GetItemTypeIfICollection(StringType) == None
  {
    assert MatchesBase(IEnumerableOf(t), IEnumerableDefinition);
    assert ICollectionOf(t).interfaces[0] == IEnumerableOf(t);
    assert ListOf(t).interfaces[1] == IEnumerableOf(t);
    assert !MatchesBase(ListOf(t).interfaces[0], IEnumerableDefinition) by {
      assert ListOf(t).interfaces[0].name == ICollectionName;
    }
    assert MatchesBase(ListOf(t).interfaces[0], ICollectionDefinition);
    assert !MatchesBase(IEnumerableOf(t), ICollectionDefinition) by {
      assert IEnumerableOf(t).name == IEnumerableName;
    }
    assert !MatchesBase(StringType.interfaces[0], ICollectionDefinition) by {
      assert StringType.interfaces[0].name == IEnumerableName;
    }
    assert !MatchesBase(StringType, ICollectionDefinition);
  }

  /** A type without generic arguments or interfaces whose base is one of the system roots. */
  predicate IsSimpleType(t: Ty) {
    !t.IsGenericType() && t.interfaces == []
    && (t.baseType == Some(ObjectType) || t.baseType == Some(ValueTypeType) || t.baseType == Some(EnumType))
  }

  /** Primitives, structs and enums are neither collections, range filters nor nullable. */
  lemma SimpleTypeFacts(t: Ty)
    requires IsSimpleType(t)
    ensures GetItemTypeIfIEnumerable(t).None? && GetItemTypeIfICollection(t).None?
    ensures GetInheritanceDefinition(t, IRangeFilterDefinition).None?
    ensures !IsInheritsFrom(t, NullableDefinition) && GetNotNullableType(t) == t
  {
    assert GetInheritanceDefinition(ObjectType, NullableDefinition).None?;
    assert GetInheritanceDefinition(ValueTypeType, NullableDefinition).None?;
    assert GetInheritanceDefinition(EnumType, NullableDefinition).None?;
  }

  /** System.String is no range filter and not nullable. */
  lemma StringTypeFacts()
    ensures GetInheritanceDefinition(StringType, IRangeFilterDefinition).None?
    ensures !IsInheritsFrom(StringType, NullableDefinition) && GetNotNullableType(StringType) == StringType
  {
    assert !MatchesBase(StringType.interfaces[0], IRangeFilterDefinition) by {
      assert StringType.interfaces[0].name[0] != IRangeFilterName[0];
    }
    assert GetInheritanceDefinition(ObjectType, NullableDefinition).None?;
  }

  /** RangeFilter<T> implements IRangeFilter<T> and nothing else the engine looks for. */
  lemma RangeFilterTypeFacts(t: Ty)
    ensures GetInheritanceDefinition(RangeFilterOf(t), IRangeFilterDefinition) == Some(IRangeFilterOf(t))
    ensures GetItemTypeIfIEnumerable(RangeFilterOf(t)).None? && GetItemTypeIfICollection(RangeFilterOf(t)).None?
    ensures !IsInheritsFrom(RangeFilterOf(t), NullableDefinition)
  {
    assert RangeFilterName[11] != IRangeFilterName[11];
    assert !MatchesBase(RangeFilterOf(t), IRangeFilterDefinition);
    assert MatchesBase(IRangeFilterOf(t), IRangeFilterDefinition);
    assert RangeFilterName[0] != IEnumerableName[0] && IRangeFilterName[0] != IEnumerableName[0];
    assert RangeFilterName[0] != ICollectionName[0] && IRangeFilterName[0] != ICollectionName[0];
    assert RangeFilterName[0] != NullableName[0];
    assert !MatchesBase(IRangeFilterOf(t), IEnumerableDefinition);
    assert !MatchesBase(IRangeFilterOf(t), ICollectionDefinition);
    assert GetInheritanceDefinition(ObjectType, NullableDefinition).None?;
  }

  /** Nullable<T> is no collection. */
  lemma NullableTypeFacts(t: Ty)
    ensures GetItemTypeIfIEnumerable(NullableOf(t)).None? && GetItemTypeIfICollection(NullableOf(t)).None?
  {
    assert NullableName[7] != IEnumerableName[7] && NullableName[7] != ICollectionName[7];
  }

  /** ICollection<T> and List<T> are no range filters and not nullable. */
  lemma CollectionTypeFacts(t: Ty)
    ensures GetInheritanceDefinition(ICollectionOf(t), IRangeFilterDefinition).None?
    ensures GetInheritanceDefinition(ListOf(t), IRangeFilterDefinition).None?
    ensures !IsInheritsFrom(ICollectionOf(t), NullableDefinition) && !IsInheritsFrom(ListOf(t), NullableDefinition)
  {
    assert ICollectionName[0] != IRangeFilterName[0] && IEnumerableName[0] != IRangeFilterName[0];
    assert ListName[0] != IRangeFilterName[0];
    assert ICollectionName[7] != NullableName[7] && ListName[7] != NullableName[7];
    assert !MatchesBase(ListOf(t).interfaces[0], IRangeFilterDefinition);
    assert !MatchesBase(ListOf(t).interfaces[1], IRangeFilterDefinition);
    assert !MatchesBase(ICollectionOf(t).interfaces[0], IRangeFilterDefinition);
    assert GetInheritanceDefinition(ObjectType, NullableDefinition).None?;
  }

  // Shape-only lookups on accessor lambdas: the lambda is inspected, never evaluated.

  /** GetMethodInfo<T>: the method of a call-shaped body, or none. */
  function GetMethodInfo(lambda: Option<Expr>): (r: Result<Option<MethodRef>>)
    requires lambda.Some? ==> lambda.value.Lambda?
    ensures lambda.None? ==> r == Failure(ArgumentNull("methodInLambda"))
    ensures lambda.Some? ==> r.Success? && (r.value.Some? <==> lambda.value.body.Call?)
    ensures lambda.Some? && r.value.Some? ==> r.value.value == lambda.value.body.callMethod
  {
    if lambda.None? then Failure(ArgumentNull("methodInLambda"))
    else if lambda.value.body.Call? then Success(Some(lambda.value.body.callMethod))
    else Success(None)
  }

  /**
   * GetMethodInfo for a parameterless action: the body is re-wrapped in a
   * lambda over a fresh object parameter, whose ids are n and n + 1.
   */
  function GetActionMethodInfo(lambda: Option<Expr>, n: nat): (r: Result<Option<MethodRef>>)
    requires lambda.Some? ==> lambda.value.Lambda?
  {
    if lambda.None? then Failure(ArgumentNull("methodInLambda"))
    else GetMethodInfo(Some(Lambda(n, lambda.value.body, [Parameter(n + 1, ObjectType, "")])))
  }

  /** Re-wrapping the body changes nothing: both overloads find the same method. */
  lemma ActionMethodInfoAgrees(lambda: Option<Expr>, n: nat)
    requires lambda.Some? ==> lambda.value.Lambda?
    ensures GetActionMethodInfo(lambda, n) == GetMethodInfo(lambda)
  {
  }

  /** GetMemberInfo: the member of a member-access body, or of a Convert of one, or none. */
  function GetMemberInfo(lambda: Option<Expr>): (r: Result<Option<MemberRef>>)
    requires lambda.Some? ==> lambda.value.Lambda?
    ensures lambda.None? ==> r == Failure(ArgumentNull("memberInLambda"))
    ensures lambda.Some? ==> r.Success? && (r.value.Some? <==> IsMemberShaped(lambda.value.body))
    ensures lambda.Some? && lambda.value.body.Member? ==> r.value == Some(lambda.value.body.member)
    ensures lambda.Some? && IsMemberShaped(lambda.value.body) && lambda.value.body.Unary? ==>
      r.value == Some(lambda.value.body.operand.member)
  {
    if lambda.None? then Failure(ArgumentNull("memberInLambda"))
    else
      var body := lambda.value.body;
      if body.Member? then Success(Some(body.member))
      else if body.Unary? && body.uop == Convert && body.operand.Member? then Success(Some(body.operand.member))
      else Success(None)
  }

  /** A member access, or a Convert of one. */
  predicate IsMemberShaped(body: Expr) {
    body.Member? || (body.Unary? && body.uop == Convert && body.operand.Member?)
  }

  /** A boxing Convert around a member access is seen through: both lambdas name the same member. */
  lemma MemberInfoSeesThroughConvert(id: nat, lid: nat, m: Expr, ps: seq<Expr>, ty: Ty)
    requires m.Member?
    ensures GetMemberInfo(Some(Lambda(lid, Unary(id, Convert, m, ty, None), ps))) == GetMemberInfo(Some(Lambda(lid, m, ps)))
    ensures GetMemberInfo(Some(Lambda(lid, m, ps))) == Success(Some(m.member))
  {
  }
}
