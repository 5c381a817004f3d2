/**
 * ExpressionReplacer: replaces every occurrence of one node (by identity)
 * with another throughout a tree.  Nodes outside the seven handled kinds are
 * returned as they are; a node whose children all come back unchanged is
 * kept through Update; lambdas, and calls and invocations (whose argument
 * lists are always rebuilt), come back as new nodes.
 */
module ExpressionReplacer {
  import opened Wrappers
  import opened Expressions
  import opened ExpressionUpdateExtensions

  /**
   * The static type T at a call of ReplaceExpression<T>: a replacement is
   * substituted for the matching node only if it is a T.
   */
  datatype Kind = AnyKind | LambdaKind | ParameterKind

  predicate Fits(e: Expr, k: Kind) {
    match k
    case AnyKind => true
    case LambdaKind => e.Lambda?
    case ParameterKind => e.Parameter?
  }

  datatype BuiltOpt = BuiltOpt(e: Option<Expr>, next: nat)

  datatype BuiltAll = BuiltAll(es: seq<Expr>, next: nat)

  /** ReplaceExpression<T> on a tree that is present; the node tested against the target first. */
  function Replace(e: Expr, k: Kind, target: Expr, repl: Expr, n: nat): (r: Built)
    ensures r.next >= n
    decreases e, 2
  {
    if e == target then Built(if Fits(repl, k) then repl else e, n)
    else ReplaceChildren(e, target, repl, n)
  }

  /** A node that is not the target: its children are rewritten according to its kind. */
  function ReplaceChildren(e: Expr, target: Expr, repl: Expr, n: nat): (r: Built)
    ensures r.next >= n
    decreases e, 1
  {
    match e
      case Binary(_, _, _, _, _, _, _) => ReplaceInBinary(e, target, repl, n)
      case Conditional(_, _, _, _) => ReplaceInConditional(e, target, repl, n)
      case Invocation(_, _, _) => ReplaceInInvocation(e, target, repl, n)
      case Lambda(_, _, _) => ReplaceInLambda(e, target, repl, n)
      case Member(_, _, _) => ReplaceInMember(e, target, repl, n)
      case Call(_, _, _, _) => ReplaceInCall(e, target, repl, n)
      case Unary(_, _, _, _, _) => ReplaceInUnary(e, target, repl, n)
      case _ => Built(e, n)
  }

  function ReplaceInBinary(e: Expr, target: Expr, repl: Expr, n: nat): (r: Built)
    requires e.Binary?
    ensures r.next >= n
    ensures r.e.Binary?
    decreases e, 0
  {
    var l := Replace(e.left, AnyKind, target, repl, n);
    var c := ReplaceOpt(e.conversion, LambdaKind, target, repl, l.next);
    var rt := Replace(e.right, AnyKind, target, repl, c.next);
    UpdateBinary(e, l.e, c.e, rt.e, rt.next)
  }

  function ReplaceInConditional(e: Expr, target: Expr, repl: Expr, n: nat): (r: Built)
    requires e.Conditional?
    ensures r.next >= n
    ensures r.e.Conditional?
    decreases e, 0
  {
    var a := Replace(e.test, AnyKind, target, repl, n);
    var b := Replace(e.ifTrue, AnyKind, target, repl, a.next);
    var c := Replace(e.ifFalse, AnyKind, target, repl, b.next);
    UpdateConditional(e, a.e, b.e, c.e, c.next)
  }

  function ReplaceInInvocation(e: Expr, target: Expr, repl: Expr, n: nat): (r: Built)
    requires e.Invocation?
    ensures r.next >= n
    ensures r.e.Invocation?
    decreases e, 0
  {
    var f := Replace(e.callee, AnyKind, target, repl, n);
    var a := ReplaceAll(e.args, AnyKind, target, repl, f.next);
    UpdateInvocation(e, f.e, NewList(a.es), a.next)
  }

  /** A lambda is rebuilt with the same delegate type, its parameter list first. */
  function ReplaceInLambda(e: Expr, target: Expr, repl: Expr, n: nat): (r: Built)
    requires e.Lambda?
    ensures r.next >= n
    ensures r.e.Lambda?
    decreases e, 0
  {
    var p := ReplaceAll(e.params, ParameterKind, target, repl, n);
    var b := Replace(e.body, AnyKind, target, repl, p.next);
    Built(Lambda(b.next, b.e, p.es), b.next + 1)
  }

  function ReplaceInMember(e: Expr, target: Expr, repl: Expr, n: nat): (r: Built)
    requires e.Member?
    ensures r.next >= n
    ensures r.e.Member?
    decreases e, 0
  {
    var x := ReplaceOpt(e.target, AnyKind, target, repl, n);
    UpdateMember(e, x.e, x.next)
  }

  function ReplaceInCall(e: Expr, target: Expr, repl: Expr, n: nat): (r: Built)
    requires e.Call?
    ensures r.next >= n
    ensures r.e.Call?
    decreases e, 0
  {
    var o := ReplaceOpt(e.obj, AnyKind, target, repl, n);
    var a := ReplaceAll(e.args, AnyKind, target, repl, o.next);
    UpdateCall(e, o.e, NewList(a.es), a.next)
  }

  function ReplaceInUnary(e: Expr, target: Expr, repl: Expr, n: nat): (r: Built)
    requires e.Unary?
    ensures r.next >= n
    ensures r.e.Unary? && r.e.uop == e.uop
    decreases e, 0
  {
    var x := Replace(e.operand, AnyKind, target, repl, n);
    UpdateUnary(e, x.e, x.next)
  }

  /** ReplaceExpression<T> on a child that may be null: null stays null. */
  function ReplaceOpt(e: Option<Expr>, k: Kind, target: Expr, repl: Expr, n: nat): (r: BuiltOpt)
    ensures r.next >= n
    ensures r.e.Some? <==> e.Some?
    decreases e
  {
    if e.None? then BuiltOpt(None, n)
    else
      var x := Replace(e.value, k, target, repl, n);
      BuiltOpt(Some(x.e), x.next)
  }

  /** The new list ReplaceExpressionInCollection builds, element by element in order. */
  function ReplaceAll(es: seq<Expr>, k: Kind, target: Expr, repl: Expr, n: nat): (r: BuiltAll)
    ensures r.next >= n
    ensures |r.es| == |es|
    decreases es
  {
    if es == [] then BuiltAll([], n)
    else
      var h := Replace(es[0], k, target, repl, n);
      var t := ReplaceAll(es[1..], k, target, repl, h.next);
      BuiltAll([h.e] + t.es, t.next)
  }

  /** ReplaceExpression<T>: both arguments are checked before the tree is looked at. */
  function ReplaceExpression(tree: Option<Expr>, k: Kind, target: Option<Expr>, repl: Option<Expr>, n: nat): (r: Result<BuiltOpt>)
    ensures target.None? ==> r == Failure(ArgumentNull("expressionToReplace"))
    ensures target.Some? && repl.None? ==> r == Failure(ArgumentNull("newExpression"))
    ensures target.Some? && repl.Some? && tree.None? ==> r == Success(BuiltOpt(None, n))
    ensures target.Some? && repl.Some? ==> r == Success(ReplaceOpt(tree, k, target.value, repl.value, n))
  {
    if target.None? then Failure(ArgumentNull("expressionToReplace"))
    else if repl.None? then Failure(ArgumentNull("newExpression"))
    else Success(ReplaceOpt(tree, k, target.value, repl.value, n))
  }

  /** ReplaceExpressionInCollection: a new list, filled by one loop in the order of the original. */
  method ReplaceExpressionInCollection(list: Option<seq<Expr>>, k: Kind, target: Option<Expr>, repl: Option<Expr>, n: nat)
    returns (r: Result<Option<seq<Expr>>>, next: nat)
    ensures target.None? ==> r == Failure(ArgumentNull("expressionToReplace"))
    ensures target.Some? && repl.None? ==> r == Failure(ArgumentNull("newExpression"))
    ensures target.Some? && repl.Some? && list.None? ==> r == Success(None) && next == n
    ensures target.Some? && repl.Some? && list.Some? ==>
      r.Success? && r.value.Some? && |r.value.value| == |list.value|
      && BuiltAll(r.value.value, next) == ReplaceAll(list.value, k, target.value, repl.value, n)
  {
    if target.None? {
      return Failure(ArgumentNull("expressionToReplace")), n;
    }
    if repl.None? {
      return Failure(ArgumentNull("newExpression")), n;
    }
    if list.None? {
      return Success(None), n;
    }
    var es := list.value;
    var acc: seq<Expr> := [];
    var cnt := n;
    for i := 0 to |es|
      invariant BuiltAll(acc, cnt) == ReplaceAll(es[..i], k, target.value, repl.value, n)
    {
      var x := Replace(es[i], k, target.value, repl.value, cnt);
      ReplaceAllSnoc(es[..i], es[i], k, target.value, repl.value, n);
      assert es[..i + 1] == es[..i] + [es[i]];
      acc := acc + [x.e];
      cnt := x.next;
    }
    assert es[..|es|] == es;
    return Success(Some(acc)), cnt;
  }

  /** Extending the list by one element extends the result by that element's replacement. */
  lemma {:induction false} ReplaceAllSnoc(es: seq<Expr>, x: Expr, k: Kind, t: Expr, repl: Expr, n: nat)
    ensures ReplaceAll(es + [x], k, t, repl, n) ==
      var a := ReplaceAll(es, k, t, repl, n);
      var b := Replace(x, k, t, repl, a.next);
      BuiltAll(a.es + [b.e], b.next)
    decreases |es|
  {
    if es == [] {
      assert es + [x] == [x];
      assert [x][1..] == [];
    } else {
      var h := Replace(es[0], k, t, repl, n);
      assert (es + [x])[0] == es[0];
      assert (es + [x])[1..] == es[1..] + [x];
      ReplaceAllSnoc(es[1..], x, k, t, repl, h.next);
      var a := ReplaceAll(es[1..], k, t, repl, h.next);
      var b := Replace(x, k, t, repl, a.next);
      assert [h.e] + (a.es + [b.e]) == ([h.e] + a.es) + [b.e];
    }
  }

  /** Element i of the new list is the replacement of element i of the original. */
  lemma {:induction false} ReplaceAllElement(es: seq<Expr>, i: nat, k: Kind, t: Expr, repl: Expr, n: nat)
    requires i < |es|
    ensures ReplaceAll(es, k, t, repl, n).es[i] ==
      Replace(es[i], k, t, repl, ReplaceAll(es[..i], k, t, repl, n).next).e
    decreases |es|
  {
    if i > 0 {
      var h := Replace(es[0], k, t, repl, n);
      ReplaceAllElement(es[1..], i - 1, k, t, repl, h.next);
      assert es[1..][..i - 1] == es[..i][1..];
      assert es[..i][0] == es[0];
      assert es[1..][i - 1] == es[i];
    }
  }

  // ---------------------------------------------------------------------------
  // Where the target occurs, and the shape of a tree.

  /** The target occurs at a position the rewriter visits. */
  predicate Occurs(t: Expr, e: Expr)
    decreases e
  {
    e == t ||
    match e
    case Binary(_, _, l, r, c, _, _) => Occurs(t, l) || Occurs(t, r) || (c.Some? && Occurs(t, c.value))
    case Conditional(_, a, b, c) => Occurs(t, a) || Occurs(t, b) || Occurs(t, c)
    case Invocation(_, f, args) => Occurs(t, f) || OccursIn(t, args)
    case Lambda(_, b, ps) => Occurs(t, b) || OccursIn(t, ps)
    case Member(_, x, _) => x.Some? && Occurs(t, x.value)
    case Call(_, o, _, args) => (o.Some? && Occurs(t, o.value)) || OccursIn(t, args)
    case Unary(_, _, x, _, _) => Occurs(t, x)
    case _ => false
  }

  predicate OccursIn(t: Expr, es: seq<Expr>)
    decreases es
  {
    es != [] && (Occurs(t, es[0]) || OccursIn(t, es[1..]))
  }

  /** The tree with every id the rewriter could change set to zero: its shape. */
  function Erase(e: Expr): Expr
    decreases e
  {
    match e
    case Binary(_, op, l, r, c, lift, m) => Binary(0, op, Erase(l), Erase(r), EraseOpt(c), lift, m)
    case Conditional(_, a, b, c) => Conditional(0, Erase(a), Erase(b), Erase(c))
    case Invocation(_, f, args) => Invocation(0, Erase(f), EraseAll(args))
    case Lambda(_, b, ps) => Lambda(0, Erase(b), EraseAll(ps))
    case Member(_, x, m) => Member(0, EraseOpt(x), m)
    case Call(_, o, m, args) => Call(0, EraseOpt(o), m, EraseAll(args))
    case Unary(_, op, x, ty, m) => Unary(0, op, Erase(x), ty, m)
    case _ => e
  }

  function EraseOpt(e: Option<Expr>): Option<Expr>
    decreases e
  {
    if e.None? then None else Some(Erase(e.value))
  }

  function EraseAll(es: seq<Expr>): seq<Expr>
    decreases es
  {
    if es == [] then [] else [Erase(es[0])] + EraseAll(es[1..])
  }

  /** Without an occurrence of the target, the result has the shape of the input. */
  lemma {:induction false} ReplaceAbsentKeepsShape(e: Expr, k: Kind, t: Expr, repl: Expr, n: nat)
    requires !Occurs(t, e)
    ensures Erase(Replace(e, k, t, repl, n).e) == Erase(e)
    decreases e, 2
  {
    if e != t {
      ChildrenKeepShape(e, t, repl, n);
    }
  }

  lemma {:induction false} ChildrenKeepShape(e: Expr, t: Expr, repl: Expr, n: nat)
    requires !Occurs(t, e)
    ensures Erase(ReplaceChildren(e, t, repl, n).e) == Erase(e)
    decreases e, 1
  {
    match e
    case Binary(_, _, _, _, _, _, _) => BinaryKeepsShape(e, t, repl, n);
    case Conditional(_, _, _, _) => ConditionalKeepsShape(e, t, repl, n);
    case Invocation(_, _, _) => InvocationKeepsShape(e, t, repl, n);
    case Lambda(_, _, _) => LambdaKeepsShape(e, t, repl, n);
    case Member(_, _, _) => MemberKeepsShape(e, t, repl, n);
    case Call(_, _, _, _) => CallKeepsShape(e, t, repl, n);
    case Unary(_, _, _, _, _) => UnaryKeepsShape(e, t, repl, n);
    case _ =>
  }

  lemma {:induction false} BinaryKeepsShape(e: Expr, t: Expr, repl: Expr, n: nat)
    requires e.Binary? && !Occurs(t, e)
    ensures Erase(ReplaceInBinary(e, t, repl, n).e) == Erase(e)
    decreases e, 0
  {
    var l := Replace(e.left, AnyKind, t, repl, n);
    var c := ReplaceOpt(e.conversion, LambdaKind, t, repl, l.next);
    var rt := Replace(e.right, AnyKind, t, repl, c.next);
    ReplaceAbsentKeepsShape(e.left, AnyKind, t, repl, n);
    ReplaceOptAbsentKeepsShape(e.conversion, LambdaKind, t, repl, l.next);
    ReplaceAbsentKeepsShape(e.right, AnyKind, t, repl, c.next);
  }

  lemma {:induction false} ConditionalKeepsShape(e: Expr, t: Expr, repl: Expr, n: nat)
    requires e.Conditional? && !Occurs(t, e)
    ensures Erase(ReplaceInConditional(e, t, repl, n).e) == Erase(e)
    decreases e, 0
  {
    var a := Replace(e.test, AnyKind, t, repl, n);
    var b := Replace(e.ifTrue, AnyKind, t, repl, a.next);
    ReplaceAbsentKeepsShape(e.test, AnyKind, t, repl, n);
    ReplaceAbsentKeepsShape(e.ifTrue, AnyKind, t, repl, a.next);
    ReplaceAbsentKeepsShape(e.ifFalse, AnyKind, t, repl, b.next);
  }

  lemma {:induction false} InvocationKeepsShape(e: Expr, t: Expr, repl: Expr, n: nat)
    requires e.Invocation? && !Occurs(t, e)
    ensures Erase(ReplaceInInvocation(e, t, repl, n).e) == Erase(e)
    decreases e, 0
  {
    var f := Replace(e.callee, AnyKind, t, repl, n);
    ReplaceAbsentKeepsShape(e.callee, AnyKind, t, repl, n);
    ReplaceAllAbsentKeepsShape(e.args, AnyKind, t, repl, f.next);
  }

  lemma {:induction false} LambdaKeepsShape(e: Expr, t: Expr, repl: Expr, n: nat)
    requires e.Lambda? && !Occurs(t, e)
    ensures Erase(ReplaceInLambda(e, t, repl, n).e) == Erase(e)
    decreases e, 0
  {
    var p := ReplaceAll(e.params, ParameterKind, t, repl, n);
    ReplaceAllAbsentKeepsShape(e.params, ParameterKind, t, repl, n);
    ReplaceAbsentKeepsShape(e.body, AnyKind, t, repl, p.next);
  }

  lemma {:induction false} MemberKeepsShape(e: Expr, t: Expr, repl: Expr, n: nat)
    requires e.Member? && !Occurs(t, e)
    ensures Erase(ReplaceInMember(e, t, repl, n).e) == Erase(e)
    decreases e, 0
  {
    ReplaceOptAbsentKeepsShape(e.target, AnyKind, t, repl, n);
  }

  lemma {:induction false} CallKeepsShape(e: Expr, t: Expr, repl: Expr, n: nat)
    requires e.Call? && !Occurs(t, e)
    ensures Erase(ReplaceInCall(e, t, repl, n).e) == Erase(e)
    decreases e, 0
  {
    var o := ReplaceOpt(e.obj, AnyKind, t, repl, n);
    var a := ReplaceAll(e.args, AnyKind, t, repl, o.next);
    ReplaceOptAbsentKeepsShape(e.obj, AnyKind, t, repl, n);
    ReplaceAllAbsentKeepsShape(e.args, AnyKind, t, repl, o.next);
  }

  lemma {:induction false} UnaryKeepsShape(e: Expr, t: Expr, repl: Expr, n: nat)
    requires e.Unary? && !Occurs(t, e)
    ensures Erase(ReplaceInUnary(e, t, repl, n).e) == Erase(e)
    decreases e, 0
  {
    ReplaceAbsentKeepsShape(e.operand, AnyKind, t, repl, n);
  }

  lemma {:induction false} ReplaceOptAbsentKeepsShape(e: Option<Expr>, k: Kind, t: Expr, repl: Expr, n: nat)
    requires e.Some? ==> !Occurs(t, e.value)
    ensures EraseOpt(ReplaceOpt(e, k, t, repl, n).e) == EraseOpt(e)
    decreases e
  {
    if e.Some? {
      ReplaceAbsentKeepsShape(e.value, k, t, repl, n);
    }
  }

  lemma {:induction false} ReplaceAllAbsentKeepsShape(es: seq<Expr>, k: Kind, t: Expr, repl: Expr, n: nat)
    requires !OccursIn(t, es)
    ensures EraseAll(ReplaceAll(es, k, t, repl, n).es) == EraseAll(es)
    decreases es
  {
    if es != [] {
      var h := Replace(es[0], k, t, repl, n);
      ReplaceAbsentKeepsShape(es[0], k, t, repl, n);
      ReplaceAllAbsentKeepsShape(es[1..], k, t, repl, h.next);
      var rest := ReplaceAll(es[1..], k, t, repl, h.next);
      assert ([h.e] + rest.es)[1..] == rest.es;
    }
  }

  /**
   * The nodes the rewriter keeps as the same objects: binary nodes without a
   * conversion, conditional, member and unary nodes, and the leaves.
   */
  predicate Stable(e: Expr)
    decreases e
  {
    match e
    case Binary(_, _, l, r, c, _, _) => c.None? && Stable(l) && Stable(r)
    case Conditional(_, a, b, c) => Stable(a) && Stable(b) && Stable(c)
    case Member(_, x, _) => x.Some? ==> Stable(x.value)
    case Unary(_, _, x, _, _) => Stable(x)
    case Invocation(_, _, _) => false
    case Lambda(_, _, _) => false
    case Call(_, _, _, _) => false
    case _ => true
  }

  /** Without an occurrence of the target, a stable tree comes back as the very same node. */
  lemma {:induction false} ReplaceAbsentStableIsIdentity(e: Expr, k: Kind, t: Expr, repl: Expr, n: nat)
    requires Stable(e) && !Occurs(t, e)
    ensures Replace(e, k, t, repl, n) == Built(e, n)
    decreases e, 2
  {
    assert e != t;
    ChildrenAreKept(e, t, repl, n);
  }

  lemma {:induction false} ChildrenAreKept(e: Expr, t: Expr, repl: Expr, n: nat)
    requires Stable(e) && !Occurs(t, e)
    ensures ReplaceChildren(e, t, repl, n) == Built(e, n)
    decreases e, 1
  {
    if e.Binary? {
      BinaryIsKept(e, t, repl, n);
    } else if e.Conditional? {
      ConditionalIsKept(e, t, repl, n);
    } else if e.Member? {
      MemberIsKept(e, t, repl, n);
    } else if e.Unary? {
      UnaryIsKept(e, t, repl, n);
    }
  }

  lemma {:induction false} BinaryIsKept(e: Expr, t: Expr, repl: Expr, n: nat)
    requires e.Binary? && Stable(e) && !Occurs(t, e)
    ensures ReplaceInBinary(e, t, repl, n) == Built(e, n)
    decreases e, 0
  {
    ReplaceAbsentStableIsIdentity(e.left, AnyKind, t, repl, n);
    ReplaceAbsentStableIsIdentity(e.right, AnyKind, t, repl, n);
  }

  lemma {:induction false} ConditionalIsKept(e: Expr, t: Expr, repl: Expr, n: nat)
    requires e.Conditional? && Stable(e) && !Occurs(t, e)
    ensures ReplaceInConditional(e, t, repl, n) == Built(e, n)
    decreases e, 0
  {
    ReplaceAbsentStableIsIdentity(e.test, AnyKind, t, repl, n);
    ReplaceAbsentStableIsIdentity(e.ifTrue, AnyKind, t, repl, n);
    ReplaceAbsentStableIsIdentity(e.ifFalse, AnyKind, t, repl, n);
  }

  lemma {:induction false} MemberIsKept(e: Expr, t: Expr, repl: Expr, n: nat)
    requires e.Member? && Stable(e) && !Occurs(t, e)
    ensures ReplaceInMember(e, t, repl, n) == Built(e, n)
    decreases e, 0
  {
    ReplaceOptAbsentStableIsIdentity(e.target, t, repl, n);
  }

  lemma {:induction false} UnaryIsKept(e: Expr, t: Expr, repl: Expr, n: nat)
    requires e.Unary? && Stable(e) && !Occurs(t, e)
    ensures ReplaceInUnary(e, t, repl, n) == Built(e, n)
    decreases e, 0
  {
    ReplaceAbsentStableIsIdentity(e.operand, AnyKind, t, repl, n);
  }

  lemma {:induction false} ReplaceOptAbsentStableIsIdentity(e: Option<Expr>, t: Expr, repl: Expr, n: nat)
    requires e.Some? ==> Stable(e.value) && !Occurs(t, e.value)
    ensures ReplaceOpt(e, AnyKind, t, repl, n) == BuiltOpt(e, n)
    decreases e
  {
    if e.Some? {
      ReplaceAbsentStableIsIdentity(e.value, AnyKind, t, repl, n);
    }
  }

  /** A lambda that is not itself the target is always rebuilt as a new lambda node. */
  lemma LambdaIsAlwaysRebuilt(e: Expr, k: Kind, t: Expr, repl: Expr, n: nat)
    requires e.Lambda? && e != t && e.id < n
    ensures Replace(e, k, t, repl, n).e.Lambda?
    ensures Replace(e, k, t, repl, n).e != e
  {
    assert Replace(e, k, t, repl, n) == ReplaceInLambda(e, t, repl, n);
  }

  /**
   * A property-access lambda (a stable body over parameter nodes) without the
   * target comes back as a new lambda holding the same body and parameters.
   */
  lemma ReplaceInAccessorLambda(e: Expr, k: Kind, t: Expr, repl: Expr, n: nat)
    requires e.Lambda? && Stable(e.body) && !Occurs(t, e)
    requires forall i | 0 <= i < |e.params| :: e.params[i].Parameter?
    ensures var r := Replace(e, k, t, repl, n);
      r.e.Lambda? && r.e.body == e.body && r.e.params == e.params && r.next == n + 1
  {
    ReplaceAllAbsentStableIsIdentity(e.params, t, repl, n);
    ReplaceAbsentStableIsIdentity(e.body, AnyKind, t, repl, n);
    assert e != t;
    assert Replace(e, k, t, repl, n) == ReplaceInLambda(e, t, repl, n);
  }

  lemma {:induction false} ReplaceAllAbsentStableIsIdentity(es: seq<Expr>, t: Expr, repl: Expr, n: nat)
    requires !OccursIn(t, es)
    requires forall i | 0 <= i < |es| :: Stable(es[i])
    ensures ReplaceAll(es, ParameterKind, t, repl, n) == BuiltAll(es, n)
    decreases es
  {
    if es != [] {
      ReplaceAbsentStableIsIdentity(es[0], ParameterKind, t, repl, n);
      assert forall i | 0 <= i < |es[1..]| :: Stable(es[1..][i]) by {
        forall i | 0 <= i < |es[1..]| ensures Stable(es[1..][i]) {
          assert es[1..][i] == es[i + 1];
        }
      }
      ReplaceAllAbsentStableIsIdentity(es[1..], t, repl, n);
      assert [es[0]] + es[1..] == es;
    }
  }

  // ---------------------------------------------------------------------------
  // Every occurrence is replaced.

  /** Binary conversions are lambdas and lambda parameters are parameter nodes, as the .NET factories demand. */
  predicate WellFormed(e: Expr)
    decreases e
  {
    match e
    case Binary(_, _, l, r, c, _, _) => WellFormed(l) && WellFormed(r) && (c.Some? ==> c.value.Lambda? && WellFormed(c.value))
    case Conditional(_, a, b, c) => WellFormed(a) && WellFormed(b) && WellFormed(c)
    case Invocation(_, f, args) => WellFormed(f) && WellFormedAll(args)
    case Lambda(_, b, ps) => WellFormed(b) && WellFormedAll(ps) && forall i | 0 <= i < |ps| :: ps[i].Parameter?
    case Member(_, x, _) => x.Some? ==> WellFormed(x.value)
    case Call(_, o, _, args) => (o.Some? ==> WellFormed(o.value)) && WellFormedAll(args)
    case Unary(_, _, x, _, _) => WellFormed(x)
    case _ => true
  }

  predicate WellFormedAll(es: seq<Expr>)
    decreases es
  {
    es != [] ==> WellFormed(es[0]) && WellFormedAll(es[1..])
  }

  /**
   * Replacing a parameter by a node that does not contain it leaves no
   * occurrence behind, in bodies, conversions, arguments and parameter lists
   * alike, provided the replacement can stand wherever the parameter is listed.
   */
  lemma {:induction false} ReplaceRemovesTarget(e: Expr, k: Kind, t: Expr, repl: Expr, n: nat)
    requires t.Parameter? && !Occurs(t, repl) && WellFormed(e)
    requires repl.Parameter? || t !in Binds(e)
    requires e == t ==> Fits(repl, k)
    ensures !Occurs(t, Replace(e, k, t, repl, n).e)
    decreases e, 2
  {
    if e != t {
      ChildrenRemoveTarget(e, t, repl, n);
    }
  }

  /** The premises of ReplaceRemovesTarget for a node that is not the target. */
  predicate RemovalPremises(e: Expr, t: Expr, repl: Expr) {
    t.Parameter? && !Occurs(t, repl) && WellFormed(e) && (repl.Parameter? || t !in Binds(e)) && e != t
  }

  lemma {:induction false} ChildrenRemoveTarget(e: Expr, t: Expr, repl: Expr, n: nat)
    requires RemovalPremises(e, t, repl)
    ensures !Occurs(t, ReplaceChildren(e, t, repl, n).e)
    decreases e, 1
  {
    match e
    case Binary(_, _, _, _, _, _, _) => BinaryRemovesTarget(e, t, repl, n);
    case Conditional(_, _, _, _) => ConditionalRemovesTarget(e, t, repl, n);
    case Invocation(_, _, _) => InvocationRemovesTarget(e, t, repl, n);
    case Lambda(_, _, _) => LambdaRemovesTarget(e, t, repl, n);
    case Member(_, _, _) => MemberRemovesTarget(e, t, repl, n);
    case Call(_, _, _, _) => CallRemovesTarget(e, t, repl, n);
    case Unary(_, _, _, _, _) => UnaryRemovesTarget(e, t, repl, n);
    case _ =>
  }

  lemma {:induction false} BinaryRemovesTarget(e: Expr, t: Expr, repl: Expr, n: nat)
    requires e.Binary? && RemovalPremises(e, t, repl)
    ensures !Occurs(t, ReplaceInBinary(e, t, repl, n).e)
    decreases e, 0
  {
    var l := Replace(e.left, AnyKind, t, repl, n);
    var c := ReplaceOpt(e.conversion, LambdaKind, t, repl, l.next);
    ReplaceRemovesTarget(e.left, AnyKind, t, repl, n);
    ReplaceOptRemovesTarget(e.conversion, LambdaKind, t, repl, l.next);
    ReplaceRemovesTarget(e.right, AnyKind, t, repl, c.next);
  }

  lemma {:induction false} ConditionalRemovesTarget(e: Expr, t: Expr, repl: Expr, n: nat)
    requires e.Conditional? && RemovalPremises(e, t, repl)
    ensures !Occurs(t, ReplaceInConditional(e, t, repl, n).e)
    decreases e, 0
  {
    var a := Replace(e.test, AnyKind, t, repl, n);
    var b := Replace(e.ifTrue, AnyKind, t, repl, a.next);
    ReplaceRemovesTarget(e.test, AnyKind, t, repl, n);
    ReplaceRemovesTarget(e.ifTrue, AnyKind, t, repl, a.next);
    ReplaceRemovesTarget(e.ifFalse, AnyKind, t, repl, b.next);
  }

  lemma {:induction false} InvocationRemovesTarget(e: Expr, t: Expr, repl: Expr, n: nat)
    requires e.Invocation? && RemovalPremises(e, t, repl)
    ensures !Occurs(t, ReplaceInInvocation(e, t, repl, n).e)
    decreases e, 0
  {
    var f := Replace(e.callee, AnyKind, t, repl, n);
    ReplaceRemovesTarget(e.callee, AnyKind, t, repl, n);
    ReplaceAllRemovesTarget(e.args, AnyKind, t, repl, f.next);
  }

  lemma {:induction false} LambdaRemovesTarget(e: Expr, t: Expr, repl: Expr, n: nat)
    requires e.Lambda? && RemovalPremises(e, t, repl)
    ensures !Occurs(t, ReplaceInLambda(e, t, repl, n).e)
    decreases e, 0
  {
    var p := ReplaceAll(e.params, ParameterKind, t, repl, n);
    ReplaceAllRemovesTarget(e.params, ParameterKind, t, repl, n);
    ReplaceRemovesTarget(e.body, AnyKind, t, repl, p.next);
  }

  lemma {:induction false} MemberRemovesTarget(e: Expr, t: Expr, repl: Expr, n: nat)
    requires e.Member? && RemovalPremises(e, t, repl)
    ensures !Occurs(t, ReplaceInMember(e, t, repl, n).e)
    decreases e, 0
  {
    ReplaceOptRemovesTarget(e.target, AnyKind, t, repl, n);
  }

  lemma {:induction false} CallRemovesTarget(e: Expr, t: Expr, repl: Expr, n: nat)
    requires e.Call? && RemovalPremises(e, t, repl)
    ensures !Occurs(t, ReplaceInCall(e, t, repl, n).e)
    decreases e, 0
  {
    var o := ReplaceOpt(e.obj, AnyKind, t, repl, n);
    ReplaceOptRemovesTarget(e.obj, AnyKind, t, repl, n);
    ReplaceAllRemovesTarget(e.args, AnyKind, t, repl, o.next);
  }

  lemma {:induction false} UnaryRemovesTarget(e: Expr, t: Expr, repl: Expr, n: nat)
    requires e.Unary? && RemovalPremises(e, t, repl)
    ensures !Occurs(t, ReplaceInUnary(e, t, repl, n).e)
    decreases e, 0
  {
    ReplaceRemovesTarget(e.operand, AnyKind, t, repl, n);
  }

  lemma {:induction false} ReplaceOptRemovesTarget(e: Option<Expr>, k: Kind, t: Expr, repl: Expr, n: nat)
    requires t.Parameter? && !Occurs(t, repl)
    requires e.Some? ==> WellFormed(e.value) && (repl.Parameter? || t !in Binds(e.value)) && (e.value == t ==> Fits(repl, k))
    ensures var r := ReplaceOpt(e, k, t, repl, n); r.e.Some? ==> !Occurs(t, r.e.value)
    decreases e
  {
    if e.Some? {
      ReplaceRemovesTarget(e.value, k, t, repl, n);
    }
  }

  lemma {:induction false} ReplaceAllRemovesTarget(es: seq<Expr>, k: Kind, t: Expr, repl: Expr, n: nat)
    requires t.Parameter? && !Occurs(t, repl) && WellFormedAll(es)
    requires repl.Parameter? || t !in BindsAll(es)
    requires k != LambdaKind
    requires k == ParameterKind ==> repl.Parameter? || t !in es
    ensures !OccursIn(t, ReplaceAll(es, k, t, repl, n).es)
    decreases es
  {
    if es != [] {
      var h := Replace(es[0], k, t, repl, n);
      ReplaceRemovesTarget(es[0], k, t, repl, n);
      ReplaceAllRemovesTarget(es[1..], k, t, repl, h.next);
      var rest := ReplaceAll(es[1..], k, t, repl, h.next);
      assert ([h.e] + rest.es)[1..] == rest.es;
    }
  }

  // ---------------------------------------------------------------------------
  // Replacing a parameter is substitution.

  lemma {:induction false} WellFormedAllElement(es: seq<Expr>, i: nat)
    requires WellFormedAll(es) && i < |es|
    ensures WellFormed(es[i])
    decreases es
  {
    if i > 0 {
      WellFormedAllElement(es[1..], i - 1);
    }
  }

  /** A node that is not the target keeps its kind, and a unary node its operator. */
  lemma ChildrenKeepKind(e: Expr, t: Expr, repl: Expr, n: nat)
    ensures var r := ReplaceChildren(e, t, repl, n).e;
      (r.Lambda? <==> e.Lambda?) && (r.Unary? <==> e.Unary?) && (e.Unary? ==> r.uop == e.uop)
  {
    var r := ReplaceChildren(e, t, repl, n);
    match e
    case Binary(_, _, _, _, _, _, _) => assert r == ReplaceInBinary(e, t, repl, n);
    case Conditional(_, _, _, _) => assert r == ReplaceInConditional(e, t, repl, n);
    case Invocation(_, _, _) => assert r == ReplaceInInvocation(e, t, repl, n);
    case Lambda(_, _, _) => assert r == ReplaceInLambda(e, t, repl, n);
    case Member(_, _, _) => assert r == ReplaceInMember(e, t, repl, n);
    case Call(_, _, _, _) => assert r == ReplaceInCall(e, t, repl, n);
    case Unary(_, _, _, _, _) => assert r == ReplaceInUnary(e, t, repl, n);
    case _ => assert r.e == e;
  }

  /**
   * A replacement that can stand as a value: neither a lambda nor a quoted
   * expression, which is what the engine substitutes for parameters (a
   * constant, a property chain, a conversion or another parameter).
   */
  predicate IsValueExpression(repl: Expr) {
    !repl.Lambda? && !(repl.Unary? && repl.uop == Quote)
  }

  /**
   * The premises of substitution: the target is a parameter that no lambda in
   * the tree declares, and no lambda in the tree declares a parameter of the
   * replacement, so nothing is captured.
   */
  predicate SubstPremises(e: Expr, t: Expr, repl: Expr) {
    t.Parameter? && WellFormed(e) && IsValueExpression(repl) && t !in Binds(e) && Binds(e) !! ParamsOf(repl)
  }

  /** Evaluating the rewritten tree is evaluating the original with the target bound to the replacement's value. */
  lemma {:induction false} ReplaceEval(e: Expr, t: Expr, repl: Expr, n: nat, env: Env)
    requires SubstPremises(e, t, repl)
    ensures Eval(Replace(e, AnyKind, t, repl, n).e, env) == Eval(e, env[t := Eval(repl, env)])
    decreases e, 2
  {
    if e != t {
      ChildrenEval(e, t, repl, n, env);
    }
  }

  lemma {:induction false} ChildrenEval(e: Expr, t: Expr, repl: Expr, n: nat, env: Env)
    requires SubstPremises(e, t, repl) && e != t
    ensures Eval(ReplaceChildren(e, t, repl, n).e, env) == Eval(e, env[t := Eval(repl, env)])
    decreases e, 1
  {
    match e
    case Binary(_, _, _, _, _, _, _) => BinaryEval(e, t, repl, n, env);
    case Conditional(_, _, _, _) => ConditionalEval(e, t, repl, n, env);
    case Invocation(_, _, _) =>
    case Lambda(_, _, _) =>
    case Member(_, _, _) => MemberEval(e, t, repl, n, env);
    case Call(_, _, _, _) => CallEval(e, t, repl, n, env);
    case Unary(_, _, _, _, _) => UnaryEval(e, t, repl, n, env);
    case Parameter(_, _, _) =>
    case Constant(_, _, _) =>
    case Other(_, _, _) =>
  }

  lemma {:induction false} BinaryEval(e: Expr, t: Expr, repl: Expr, n: nat, env: Env)
    requires e.Binary? && SubstPremises(e, t, repl)
    ensures Eval(ReplaceInBinary(e, t, repl, n).e, env) == Eval(e, env[t := Eval(repl, env)])
    decreases e, 0
  {
    var l := Replace(e.left, AnyKind, t, repl, n);
    var c := ReplaceOpt(e.conversion, LambdaKind, t, repl, l.next);
    ReplaceEval(e.left, t, repl, n, env);
    ReplaceEval(e.right, t, repl, c.next, env);
  }

  lemma {:induction false} ConditionalEval(e: Expr, t: Expr, repl: Expr, n: nat, env: Env)
    requires e.Conditional? && SubstPremises(e, t, repl)
    ensures Eval(ReplaceInConditional(e, t, repl, n).e, env) == Eval(e, env[t := Eval(repl, env)])
    decreases e, 0
  {
    var a := Replace(e.test, AnyKind, t, repl, n);
    var b := Replace(e.ifTrue, AnyKind, t, repl, a.next);
    ReplaceEval(e.test, t, repl, n, env);
    ReplaceEval(e.ifTrue, t, repl, a.next, env);
    ReplaceEval(e.ifFalse, t, repl, b.next, env);
  }

  lemma {:induction false} MemberEval(e: Expr, t: Expr, repl: Expr, n: nat, env: Env)
    requires e.Member? && SubstPremises(e, t, repl)
    ensures Eval(ReplaceInMember(e, t, repl, n).e, env) == Eval(e, env[t := Eval(repl, env)])
    decreases e, 0
  {
    ReplaceOptEval(e.target, t, repl, n, env);
  }

  lemma {:induction false} UnaryEval(e: Expr, t: Expr, repl: Expr, n: nat, env: Env)
    requires e.Unary? && SubstPremises(e, t, repl)
    ensures Eval(ReplaceInUnary(e, t, repl, n).e, env) == Eval(e, env[t := Eval(repl, env)])
    decreases e, 0
  {
    ReplaceEval(e.operand, t, repl, n, env);
  }

  lemma {:induction false} ReplaceOptEval(e: Option<Expr>, t: Expr, repl: Expr, n: nat, env: Env)
    requires e.Some? ==> SubstPremises(e.value, t, repl)
    ensures var r := ReplaceOpt(e, AnyKind, t, repl, n);
      r.e.Some? ==> Eval(r.e.value, env) == Eval(e.value, env[t := Eval(repl, env)])
    decreases e
  {
    if e.Some? {
      ReplaceEval(e.value, t, repl, n, env);
    }
  }

  /** Argument i of a rewritten argument list evaluates as the original under the substitution. */
  lemma {:induction false} ReplaceAllEvalElement(es: seq<Expr>, i: nat, t: Expr, repl: Expr, n: nat, env: Env)
    requires i < |es| && WellFormedAll(es) && t.Parameter? && IsValueExpression(repl)
    requires t !in BindsAll(es) && BindsAll(es) !! ParamsOf(repl)
    ensures Eval(ReplaceAll(es, AnyKind, t, repl, n).es[i], env) == Eval(es[i], env[t := Eval(repl, env)])
    decreases es, 0
  {
    ReplaceAllElement(es, i, AnyKind, t, repl, n);
    ParamsOfAllElement(es, i);
    WellFormedAllElement(es, i);
    ReplaceEval(es[i], t, repl, ReplaceAll(es[..i], AnyKind, t, repl, n).next, env);
  }

  lemma {:induction false} CallEval(e: Expr, t: Expr, repl: Expr, n: nat, env: Env)
    requires e.Call? && SubstPremises(e, t, repl)
    ensures Eval(ReplaceInCall(e, t, repl, n).e, env) == Eval(e, env[t := Eval(repl, env)])
    decreases e, 0
  {
    var o := ReplaceOpt(e.obj, AnyKind, t, repl, n);
    var a := ReplaceAll(e.args, AnyKind, t, repl, o.next);
    var r := UpdateCall(e, o.e, NewList(a.es), a.next).e;
    var env' := env[t := Eval(repl, env)];
    ReplaceOptEval(e.obj, t, repl, n, env);
    if |e.args| >= 1 {
      ReplaceAllEvalElement(e.args, 0, t, repl, o.next, env);
    }
    if |e.args| == 2 {
      ArgumentAnyEval(e.args, t, repl, o.next, env);
    }
    CallCongruence(r, env, e, env');
  }

  /** Two calls of one method whose object and arguments evaluate alike evaluate alike. */
  lemma CallCongruence(c1: Expr, env1: Env, c2: Expr, env2: Env)
    requires c1.Call? && c2.Call? && c1.callMethod == c2.callMethod
    requires c1.obj.Some? == c2.obj.Some? && |c1.args| == |c2.args|
    requires c1.obj.Some? ==> Eval(c1.obj.value, env1) == Eval(c2.obj.value, env2)
    requires |c1.args| >= 1 ==> Eval(c1.args[0], env1) == Eval(c2.args[0], env2)
    requires |c1.args| == 2 ==> forall src :: EvalAny(src, c1.args[1], env1) == EvalAny(src, c2.args[1], env2)
    ensures Eval(c1, env1) == Eval(c2, env2)
  {
  }

  /** The second argument of Queryable.Any, rewritten inside an argument list. */
  lemma {:induction false} ArgumentAnyEval(es: seq<Expr>, t: Expr, repl: Expr, n: nat, env: Env)
    requires |es| == 2 && WellFormedAll(es) && t.Parameter? && IsValueExpression(repl)
    requires t !in BindsAll(es) && BindsAll(es) !! ParamsOf(repl)
    ensures forall src :: EvalAny(src, ReplaceAll(es, AnyKind, t, repl, n).es[1], env) == EvalAny(src, es[1], env[t := Eval(repl, env)])
    decreases es, 0
  {
    ReplaceAllElement(es, 1, AnyKind, t, repl, n);
    ParamsOfAllElement(es, 1);
    WellFormedAllElement(es, 1);
    forall src {
      AnyEval(src, es[1], t, repl, ReplaceAll(es[..1], AnyKind, t, repl, n).next, env);
    }
  }

  /** Queryable.Any over the rewritten predicate: the lambda's own parameter is bound around the substitution. */
  lemma {:induction false} AnyEval(src: Value, q: Expr, t: Expr, repl: Expr, n: nat, env: Env)
    requires SubstPremises(q, t, repl)
    ensures EvalAny(src, Replace(q, AnyKind, t, repl, n).e, env) == EvalAny(src, q, env[t := Eval(repl, env)])
    decreases q, 3
  {
    if IsQuotedLambda(q) {
      QuotedLambdaEval(src, q, t, repl, n, env);
    } else {
      NotQuotedLambdaStays(q, t, repl, n);
      EvalAnyOfOther(src, Replace(q, AnyKind, t, repl, n).e, env);
      EvalAnyOfOther(src, q, env[t := Eval(repl, env)]);
    }
  }

  predicate IsQuotedLambda(q: Expr) {
    q.Unary? && q.uop == Quote && q.operand.Lambda?
  }

  lemma EvalAnyOfOther(src: Value, q: Expr, env: Env)
    requires !IsQuotedLambda(q)
    ensures EvalAny(src, q, env) == Null
  {
  }

  /** Rewriting never turns another node into a quoted lambda, when the replacement is a value. */
  lemma NotQuotedLambdaStays(q: Expr, t: Expr, repl: Expr, n: nat)
    requires !IsQuotedLambda(q) && IsValueExpression(repl)
    ensures !IsQuotedLambda(Replace(q, AnyKind, t, repl, n).e)
  {
    if q != t {
      ChildrenKeepKind(q, t, repl, n);
      if q.Unary? && q.uop == Quote {
        assert Replace(q, AnyKind, t, repl, n).e.operand == Replace(q.operand, AnyKind, t, repl, n).e;
        if q.operand != t {
          ChildrenKeepKind(q.operand, t, repl, n);
        }
      }
    }
  }

  /** The rewritten quoted lambda keeps its parameter list and rewrites its body. */
  lemma QuotedLambdaShape(q: Expr, t: Expr, repl: Expr, n: nat)
    requires IsQuotedLambda(q) && SubstPremises(q, t, repl)
    ensures var r := Replace(q, AnyKind, t, repl, n).e;
      r.Unary? && r.uop == Quote && r.operand.Lambda? && r.operand.params == q.operand.params
      && r.operand.body == Replace(q.operand.body, AnyKind, t, repl, n).e
  {
    var lam := q.operand;
    assert WellFormed(lam) && Binds(lam) <= Binds(q);
    assert t !in lam.params;
    ParamsNotOccur(lam.params, t);
    ReplaceAllAbsentStableIsIdentity(lam.params, t, repl, n);
    assert Replace(lam, AnyKind, t, repl, n) == ReplaceInLambda(lam, t, repl, n);
    assert Replace(q, AnyKind, t, repl, n) == ReplaceInUnary(q, t, repl, n);
  }

  lemma {:induction false} QuotedLambdaEval(src: Value, q: Expr, t: Expr, repl: Expr, n: nat, env: Env)
    requires IsQuotedLambda(q) && SubstPremises(q, t, repl)
    ensures EvalAny(src, Replace(q, AnyKind, t, repl, n).e, env) == EvalAny(src, q, env[t := Eval(repl, env)])
    decreases q, 2
  {
    var v := Eval(repl, env);
    var lam := q.operand;
    var ps := lam.params;
    QuotedLambdaShape(q, t, repl, n);
    var body' := Replace(lam.body, AnyKind, t, repl, n).e;
    if |ps| == 1 && src.Items? {
      var p := ps[0];
      assert p in Binds(lam) && Binds(lam) <= Binds(q) && WellFormed(lam);
      assert Binds(lam.body) <= Binds(q);
      forall i | 0 <= i < |src.items|
        ensures Eval(body', env[p := src.items[i]]) == Eval(lam.body, env[t := v][p := src.items[i]])
      {
        BoundBodyEval(lam.body, p, src.items[i], t, repl, n, env);
      }
    }
  }

  /** Under the lambda's binder p, which the replacement does not mention, substitution commutes with binding p. */
  lemma {:induction false} BoundBodyEval(body: Expr, p: Expr, x: Value, t: Expr, repl: Expr, n: nat, env: Env)
    requires SubstPremises(body, t, repl) && p != t && p !in ParamsOf(repl)
    ensures Eval(Replace(body, AnyKind, t, repl, n).e, env[p := x]) == Eval(body, env[t := Eval(repl, env)][p := x])
    decreases body, 3
  {
    var v := Eval(repl, env);
    ReplaceEval(body, t, repl, n, env[p := x]);
    EvalFrame(repl, env[p := x], env);
    assert env[p := x][t := v] == env[t := v][p := x];
  }

  lemma {:induction false} ParamsNotOccur(ps: seq<Expr>, t: Expr)
    requires forall i | 0 <= i < |ps| :: ps[i].Parameter?
    requires t !in ps
    ensures !OccursIn(t, ps)
    ensures forall i | 0 <= i < |ps| :: Stable(ps[i])
    decreases ps
  {
    if ps != [] {
      ParamsNotOccur(ps[1..], t);
    }
  }

  // ---------------------------------------------------------------------------
  // What a rewritten tree can contain.

  /**
   * When no lambda of the tree declares the target, the rewritten tree is
   * well formed, mentions only parameters of the original and of the
   * replacement, and declares only what they declare.
   */
  predicate FootprintPremises(e: Expr, t: Expr, repl: Expr) {
    t.Parameter? && WellFormed(e) && WellFormed(repl) && t !in Binds(e)
  }

  predicate WithinFootprint(r: Expr, e: Expr, repl: Expr) {
    WellFormed(r) && ParamsOf(r) <= ParamsOf(e) + ParamsOf(repl) && Binds(r) <= Binds(e) + Binds(repl)
  }

  lemma {:induction false} ReplaceFootprint(e: Expr, k: Kind, t: Expr, repl: Expr, n: nat)
    requires FootprintPremises(e, t, repl)
    ensures WithinFootprint(Replace(e, k, t, repl, n).e, e, repl)
    decreases e, 2
  {
    if e != t {
      ChildrenFootprint(e, t, repl, n);
    }
  }

  lemma {:induction false} ChildrenFootprint(e: Expr, t: Expr, repl: Expr, n: nat)
    requires FootprintPremises(e, t, repl)
    ensures WithinFootprint(ReplaceChildren(e, t, repl, n).e, e, repl)
    decreases e, 1
  {
    match e
    case Binary(_, _, _, _, _, _, _) => BinaryFootprint(e, t, repl, n);
    case Conditional(_, _, _, _) => ConditionalFootprint(e, t, repl, n);
    case Invocation(_, _, _) => InvocationFootprint(e, t, repl, n);
    case Lambda(_, _, _) => LambdaFootprint(e, t, repl, n);
    case Member(_, _, _) => MemberFootprint(e, t, repl, n);
    case Call(_, _, _, _) => CallFootprint(e, t, repl, n);
    case Unary(_, _, _, _, _) => UnaryFootprint(e, t, repl, n);
    case _ =>
  }

  lemma {:induction false} BinaryFootprint(e: Expr, t: Expr, repl: Expr, n: nat)
    requires e.Binary? && FootprintPremises(e, t, repl)
    ensures WithinFootprint(ReplaceInBinary(e, t, repl, n).e, e, repl)
    decreases e, 0
  {
    var l := Replace(e.left, AnyKind, t, repl, n);
    var c := ReplaceOpt(e.conversion, LambdaKind, t, repl, l.next);
    ReplaceFootprint(e.left, AnyKind, t, repl, n);
    ReplaceOptFootprint(e.conversion, LambdaKind, t, repl, l.next);
    ReplaceFootprint(e.right, AnyKind, t, repl, c.next);
  }

  lemma {:induction false} ConditionalFootprint(e: Expr, t: Expr, repl: Expr, n: nat)
    requires e.Conditional? && FootprintPremises(e, t, repl)
    ensures WithinFootprint(ReplaceInConditional(e, t, repl, n).e, e, repl)
    decreases e, 0
  {
    var a := Replace(e.test, AnyKind, t, repl, n);
    var b := Replace(e.ifTrue, AnyKind, t, repl, a.next);
    ReplaceFootprint(e.test, AnyKind, t, repl, n);
    ReplaceFootprint(e.ifTrue, AnyKind, t, repl, a.next);
    ReplaceFootprint(e.ifFalse, AnyKind, t, repl, b.next);
  }

  lemma {:induction false} InvocationFootprint(e: Expr, t: Expr, repl: Expr, n: nat)
    requires e.Invocation? && FootprintPremises(e, t, repl)
    ensures WithinFootprint(ReplaceInInvocation(e, t, repl, n).e, e, repl)
    decreases e, 0
  {
    var f := Replace(e.callee, AnyKind, t, repl, n);
    ReplaceFootprint(e.callee, AnyKind, t, repl, n);
    ReplaceAllFootprint(e.args, t, repl, f.next);
  }

  lemma {:induction false} LambdaFootprint(e: Expr, t: Expr, repl: Expr, n: nat)
    requires e.Lambda? && FootprintPremises(e, t, repl)
    ensures WithinFootprint(ReplaceInLambda(e, t, repl, n).e, e, repl)
    decreases e, 0
  {
    assert t !in e.params;
    ParamsNotOccur(e.params, t);
    ReplaceAllAbsentStableIsIdentity(e.params, t, repl, n);
    ReplaceFootprint(e.body, AnyKind, t, repl, n);
  }

  lemma {:induction false} MemberFootprint(e: Expr, t: Expr, repl: Expr, n: nat)
    requires e.Member? && FootprintPremises(e, t, repl)
    ensures WithinFootprint(ReplaceInMember(e, t, repl, n).e, e, repl)
    decreases e, 0
  {
    ReplaceOptFootprint(e.target, AnyKind, t, repl, n);
  }

  lemma {:induction false} CallFootprint(e: Expr, t: Expr, repl: Expr, n: nat)
    requires e.Call? && FootprintPremises(e, t, repl)
    ensures WithinFootprint(ReplaceInCall(e, t, repl, n).e, e, repl)
    decreases e, 0
  {
    var o := ReplaceOpt(e.obj, AnyKind, t, repl, n);
    var a := ReplaceAll(e.args, AnyKind, t, repl, o.next);
    ReplaceOptFootprint(e.obj, AnyKind, t, repl, n);
    ReplaceAllFootprint(e.args, t, repl, o.next);
    CallWithin(ReplaceInCall(e, t, repl, n).e, e, repl);
  }

  /** A call whose object and arguments stay within their originals' footprint stays within the call's. */
  lemma CallWithin(r: Expr, e: Expr, repl: Expr)
    requires r.Call? && e.Call? && (r.obj.Some? <==> e.obj.Some?)
    requires r.obj.Some? ==> WithinFootprint(r.obj.value, e.obj.value, repl)
    requires WellFormedAll(r.args) && ParamsOfAll(r.args) <= ParamsOfAll(e.args) + ParamsOf(repl)
    requires BindsAll(r.args) <= BindsAll(e.args) + Binds(repl)
    ensures WithinFootprint(r, e, repl)
  {
  }

  lemma {:induction false} UnaryFootprint(e: Expr, t: Expr, repl: Expr, n: nat)
    requires e.Unary? && FootprintPremises(e, t, repl)
    ensures WithinFootprint(ReplaceInUnary(e, t, repl, n).e, e, repl)
    decreases e, 0
  {
    ReplaceFootprint(e.operand, AnyKind, t, repl, n);
  }

  /** A child that may be missing; a conversion rewritten as a lambda stays a lambda. */
  lemma {:induction false} ReplaceOptFootprint(e: Option<Expr>, k: Kind, t: Expr, repl: Expr, n: nat)
    requires e.Some? ==> FootprintPremises(e.value, t, repl)
    ensures var r := ReplaceOpt(e, k, t, repl, n);
      r.e.Some? ==> WithinFootprint(r.e.value, e.value, repl)
    ensures var r := ReplaceOpt(e, k, t, repl, n);
      r.e.Some? && k == LambdaKind && e.value.Lambda? ==> r.e.value.Lambda?
    decreases e
  {
    if e.Some? {
      ReplaceFootprint(e.value, k, t, repl, n);
      if e.value != t {
        ChildrenKeepKind(e.value, t, repl, n);
      }
    }
  }

  lemma {:induction false} ReplaceAllFootprint(es: seq<Expr>, t: Expr, repl: Expr, n: nat)
    requires t.Parameter? && WellFormedAll(es) && WellFormed(repl) && t !in BindsAll(es)
    ensures var r := ReplaceAll(es, AnyKind, t, repl, n).es;
      WellFormedAll(r) && ParamsOfAll(r) <= ParamsOfAll(es) + ParamsOf(repl) && BindsAll(r) <= BindsAll(es) + Binds(repl)
    decreases es
  {
    if es != [] {
      var h := Replace(es[0], AnyKind, t, repl, n);
      ReplaceFootprint(es[0], AnyKind, t, repl, n);
      ReplaceAllFootprint(es[1..], t, repl, h.next);
      var rest := ReplaceAll(es[1..], AnyKind, t, repl, h.next);
      assert ([h.e] + rest.es)[1..] == rest.es;
    }
  }

  /**
   * A parameter list of two nodes, as every predicate the engine builds has:
   * the target is replaced when the replacement is a parameter and kept
   * otherwise, and no id is used.
   */
  lemma ReplaceParameterPair(p: Expr, q: Expr, t: Expr, repl: Expr, n: nat)
    requires p.Parameter? && q.Parameter?
    ensures ReplaceAll([p, q], ParameterKind, t, repl, n) ==
      BuiltAll([if p == t && repl.Parameter? then repl else p, if q == t && repl.Parameter? then repl else q], n)
  {
    var a := if p == t && repl.Parameter? then repl else p;
    var b := if q == t && repl.Parameter? then repl else q;
    ReplaceParameter(p, t, repl, n);
    ReplaceParameter(q, t, repl, n);
    var tail := ReplaceAll([q], ParameterKind, t, repl, n);
    assert [q][1..] == [];
    assert ReplaceAll([], ParameterKind, t, repl, n) == BuiltAll([], n);
    assert tail == BuiltAll([b] + [], n);
    assert [b] + [] == [b];
    assert [p, q][1..] == [q];
    assert ReplaceAll([p, q], ParameterKind, t, repl, n) == BuiltAll([a] + tail.es, tail.next);
    assert [a] + [b] == [a, b];
  }

  /** One parameter node rewritten in a parameter list. */
  lemma ReplaceParameter(p: Expr, t: Expr, repl: Expr, n: nat)
    requires p.Parameter?
    ensures Replace(p, ParameterKind, t, repl, n) == Built(if p == t && repl.Parameter? then repl else p, n)
  {
    if p != t {
      assert ReplaceChildren(p, t, repl, n) == Built(p, n);
    }
  }

  /** Rewriting a two-parameter lambda: its list as ReplaceParameterPair says, its body with the static type Expression. */
  lemma ReplaceInPairLambda(lam: Expr, k: Kind, t: Expr, repl: Expr, n: nat)
    requires lam.Lambda? && |lam.params| == 2 && lam.params[0].Parameter? && lam.params[1].Parameter?
    requires t.Parameter?
    ensures var b := Replace(lam.body, AnyKind, t, repl, n);
      var p := lam.params[0];
      var q := lam.params[1];
      Replace(lam, k, t, repl, n) ==
      Built(Lambda(b.next, b.e, [if p == t && repl.Parameter? then repl else p, if q == t && repl.Parameter? then repl else q]), b.next + 1)
  {
    ReplaceParameterPair(lam.params[0], lam.params[1], t, repl, n);
    assert lam.params == [lam.params[0], lam.params[1]];
    assert Replace(lam, k, t, repl, n) == ReplaceInLambda(lam, t, repl, n);
  }

  /** Rewriting a one-parameter lambda: its parameter as ReplaceParameter says, its body with the static type Expression. */
  lemma ReplaceInUnaryLambda(lam: Expr, k: Kind, t: Expr, repl: Expr, n: nat)
    requires lam.Lambda? && |lam.params| == 1 && lam.params[0].Parameter?
    requires t.Parameter?
    ensures var b := Replace(lam.body, AnyKind, t, repl, n);
      var p := lam.params[0];
      Replace(lam, k, t, repl, n) == Built(Lambda(b.next, b.e, [if p == t && repl.Parameter? then repl else p]), b.next + 1)
  {
    var p := lam.params[0];
    ReplaceSingleParameter(p, t, repl, n);
    assert lam.params == [p];
    assert lam != t;
    assert Replace(lam, k, t, repl, n) == ReplaceChildren(lam, t, repl, n);
    assert ReplaceChildren(lam, t, repl, n) == ReplaceInLambda(lam, t, repl, n);
  }

  /** Rewriting a one-element parameter list: the element as ReplaceParameter says, no ids taken. */
  lemma ReplaceSingleParameter(p: Expr, t: Expr, repl: Expr, n: nat)
    requires p.Parameter?
    ensures ReplaceAll([p], ParameterKind, t, repl, n) == BuiltAll([if p == t && repl.Parameter? then repl else p], n)
  {
    var a := if p == t && repl.Parameter? then repl else p;
    ReplaceParameter(p, t, repl, n);
    assert [p][1..] == [];
    assert ReplaceAll([], ParameterKind, t, repl, n) == BuiltAll([], n);
    assert ReplaceAll([p], ParameterKind, t, repl, n) == BuiltAll([a] + [], n);
    assert [a] + [] == [a];
  }
}
