/**
 * A model of the System.Linq.Expressions trees the engine builds and rewrites.
 * Every node carries an id: two node values are the same .NET object exactly
 * when they are equal, so reference equality of the original becomes Dafny
 * equality here, and every node an operation allocates takes a fresh id from
 * a counter that the operation threads through and returns.
 */
module Expressions {
  import opened Wrappers
  import opened Types

  /** Run-time values of filter and entity properties; DateTime and decimal count as integers. */
  datatype Value =
    | Null
    | Bool(b: bool)
    | Num(n: int)
    | Str(s: string)
    | Items(items: seq<Value>)
    | Object(fields: map<string, Value>)

  datatype BinaryOp = Equal | GreaterThan | GreaterThanOrEqual | LessThan | LessThanOrEqual | AndAlso | OrElse

  datatype UnaryOp = Convert | Not | Quote

  /** The members an accessor can read: a property, or HasValue of Nullable<T>. */
  datatype MemberRef = PropertyAccess(name: string, ty: Ty) | HasValue

  /** The methods the engine calls, by their generic instantiation. */
  datatype MethodRef =
    | CollectionContains(itemType: Ty)   // ICollection<T>.Contains
    | QueryableAny(itemType: Ty)         // Queryable.Any<T>
    | AsQueryable(itemType: Ty)          // Queryable.AsQueryable<T>
    | OtherMethod(methodName: string)

  datatype Expr =
    | Binary(id: nat, op: BinaryOp, left: Expr, right: Expr, conversion: Option<Expr>, liftToNull: bool, binaryMethod: Option<MethodRef>)
    | Conditional(id: nat, test: Expr, ifTrue: Expr, ifFalse: Expr)
    | Invocation(id: nat, callee: Expr, args: seq<Expr>)
    | Lambda(id: nat, body: Expr, params: seq<Expr>)
    | Member(id: nat, target: Option<Expr>, member: MemberRef)
    | Call(id: nat, obj: Option<Expr>, callMethod: MethodRef, args: seq<Expr>)
    | Unary(id: nat, uop: UnaryOp, operand: Expr, ty: Ty, unaryMethod: Option<MethodRef>)
    | Parameter(id: nat, ty: Ty, name: string)
    | Constant(id: nat, value: Value, ty: Ty)
    | Other(id: nat, kind: string, children: seq<Expr>)   // node kinds the rewriter does not enter

  /** A node an operation produced, with the next unused id. */
  datatype Built = Built(e: Expr, next: nat)

  predicate Truthy(v: Value) {
    v == Bool(true)
  }

  /** The binary operators with lifted-null semantics: null == null, and any ordering with null is false. */
  function Apply(op: BinaryOp, a: Value, b: Value): Value {
    match op
    case Equal => Bool(a == b)
    case GreaterThan => Bool(a.Num? && b.Num? && a.n > b.n)
    case GreaterThanOrEqual => Bool(a.Num? && b.Num? && a.n >= b.n)
    case LessThan => Bool(a.Num? && b.Num? && a.n < b.n)
    case LessThanOrEqual => Bool(a.Num? && b.Num? && a.n <= b.n)
    case AndAlso => Bool(Truthy(a) && Truthy(b))
    case OrElse => Bool(Truthy(a) || Truthy(b))
  }

  /** Reading a member; reading through null yields null, as the engine's null-tolerant evaluation does. */
  function ReadMember(v: Value, m: MemberRef): Value {
    match m
    case HasValue => Bool(v != Null)
    case PropertyAccess(name, _) => if v.Object? && name in v.fields then v.fields[name] else Null
  }

  function ContainsValue(c: Value, v: Value): Value {
    if c.Items? then Bool(v in c.items) else Null
  }

  type Env = map<Expr, Value>

  /**
   * The value of an expression under a binding of parameter nodes.  A quoted
   * single-parameter lambda is applied by Queryable.Any; other lambdas and
   * invocations have no value of their own here.
   */
  function Eval(e: Expr, env: Env): Value
    decreases e
  {
    match e
    case Parameter(_, _, _) => if e in env then env[e] else Null
    case Constant(_, v, _) => v
    case Member(_, target, m) => if target.Some? then ReadMember(Eval(target.value, env), m) else Null
    case Unary(_, op, x, _, _) =>
      (match op
       case Convert => Eval(x, env)
       case Not => var v := Eval(x, env); if v.Bool? then Bool(!v.b) else Null
       case Quote => Null)
    case Binary(_, op, l, r, _, _, _) => Apply(op, Eval(l, env), Eval(r, env))
    case Conditional(_, c, t, f) => if Truthy(Eval(c, env)) then Eval(t, env) else Eval(f, env)
    case Call(_, obj, m, args) =>
      (match m
       case CollectionContains(_) =>
         if obj.Some? && |args| == 1 then ContainsValue(Eval(obj.value, env), Eval(args[0], env)) else Null
       case AsQueryable(_) =>
         if obj.None? && |args| == 1 then Eval(args[0], env) else Null
       case QueryableAny(_) =>
         if obj.None? && |args| == 2 then EvalAny(Eval(args[0], env), args[1], env) else Null
       case OtherMethod(_) => Null)
    case _ => Null
  }

  /** Queryable.Any over a source value with a quoted one-parameter predicate. */
  function EvalAny(src: Value, quoted: Expr, env: Env): Value
    decreases quoted
  {
    match quoted
    case Unary(_, Quote, Lambda(_, body, ps), _, _) =>
      if |ps| == 1 && ps[0].Parameter? && src.Items? then
        Bool(exists i | 0 <= i < |src.items| :: Truthy(Eval(body, env[ps[0] := src.items[i]])))
      else Null
    case _ => Null
  }

  /** Applying a one-parameter lambda. */
  function Apply1(f: Expr, a: Value): Value {
    if f.Lambda? && |f.params| == 1 then Eval(f.body, map[f.params[0] := a]) else Null
  }

  /** Applying a two-parameter lambda. */
  function Apply2(f: Expr, a: Value, b: Value): Value {
    if f.Lambda? && |f.params| == 2 then Eval(f.body, map[f.params[0] := a][f.params[1] := b]) else Null
  }

  /** Every parameter node reachable in the parts of a tree that are evaluated or rewritten. */
  function ParamsOf(e: Expr): set<Expr>
    decreases e
  {
    match e
    case Parameter(_, _, _) => {e}
    case Constant(_, _, _) => {}
    case Other(_, _, _) => {}
    case Member(_, t, _) => if t.Some? then ParamsOf(t.value) else {}
    case Unary(_, _, x, _, _) => ParamsOf(x)
    case Binary(_, _, l, r, c, _, _) => ParamsOf(l) + ParamsOf(r) + (if c.Some? then ParamsOf(c.value) else {})
    case Conditional(_, c, t, f) => ParamsOf(c) + ParamsOf(t) + ParamsOf(f)
    case Invocation(_, f, args) => ParamsOf(f) + ParamsOfAll(args)
    case Lambda(_, b, ps) => ParamsOf(b) + ParamsOfAll(ps)
    case Call(_, o, _, args) => (if o.Some? then ParamsOf(o.value) else {}) + ParamsOfAll(args)
  }

  function ParamsOfAll(es: seq<Expr>): set<Expr>
    decreases es
  {
    if es == [] then {} else ParamsOf(es[0]) + ParamsOfAll(es[1..])
  }

  /** The nodes listed as lambda parameters anywhere in a tree. */
  function Binds(e: Expr): set<Expr>
    decreases e
  {
    match e
    case Parameter(_, _, _) => {}
    case Constant(_, _, _) => {}
    case Other(_, _, _) => {}
    case Member(_, t, _) => if t.Some? then Binds(t.value) else {}
    case Unary(_, _, x, _, _) => Binds(x)
    case Binary(_, _, l, r, c, _, _) => Binds(l) + Binds(r) + (if c.Some? then Binds(c.value) else {})
    case Conditional(_, c, t, f) => Binds(c) + Binds(t) + Binds(f)
    case Invocation(_, f, args) => Binds(f) + BindsAll(args)
    case Lambda(_, b, ps) => Binds(b) + BindsAll(ps) + (set p | p in ps)
    case Call(_, o, _, args) => (if o.Some? then Binds(o.value) else {}) + BindsAll(args)
  }

  function BindsAll(es: seq<Expr>): set<Expr>
    decreases es
  {
    if es == [] then {} else Binds(es[0]) + BindsAll(es[1..])
  }

  lemma {:induction false} ParamsOfAllElement(es: seq<Expr>, i: nat)
    requires i < |es|
    ensures ParamsOf(es[i]) <= ParamsOfAll(es)
    ensures Binds(es[i]) <= BindsAll(es)
    decreases es
  {
    if i > 0 {
      ParamsOfAllElement(es[1..], i - 1);
    }
  }

  /** Two environments agree on a set of parameters. */
  predicate Agree(env1: Env, env2: Env, ps: set<Expr>) {
    forall p | p in ps :: (p in env1 <==> p in env2) && (p in env1 ==> env1[p] == env2[p])
  }

  /** The value of a tree depends only on the bindings of its own parameters. */
  lemma {:induction false} EvalFrame(e: Expr, env1: Env, env2: Env)
    requires Agree(env1, env2, ParamsOf(e))
    ensures Eval(e, env1) == Eval(e, env2)
    decreases e, 2
  {
    match e
    case Parameter(_, _, _) =>
    case Constant(_, _, _) =>
    case Other(_, _, _) =>
    case Invocation(_, _, _) =>
    case Lambda(_, _, _) =>
    case Member(_, t, _) =>
      if t.Some? { EvalFrame(t.value, env1, env2); }
    case Unary(_, _, x, _, _) => EvalFrame(x, env1, env2);
    case Binary(_, _, l, r, _, _, _) =>
      EvalFrame(l, env1, env2);
      EvalFrame(r, env1, env2);
    case Conditional(_, c, t, f) =>
      EvalFrame(c, env1, env2);
      EvalFrame(t, env1, env2);
      EvalFrame(f, env1, env2);
    case Call(_, _, _, _) => EvalFrameCall(e, env1, env2);
  }

  lemma {:induction false} EvalFrameCall(e: Expr, env1: Env, env2: Env)
    requires e.Call? && Agree(env1, env2, ParamsOf(e))
    ensures Eval(e, env1) == Eval(e, env2)
    decreases e, 1
  {
    var args := e.args;
    if e.obj.Some? { EvalFrame(e.obj.value, env1, env2); }
    if |args| >= 1 {
      ParamsOfAllElement(args, 0);
      EvalFrame(args[0], env1, env2);
    }
    if |args| == 2 {
      ParamsOfAllElement(args, 1);
      EvalFrameAny(Eval(args[0], env1), args[1], env1, env2);
    }
  }

  lemma {:induction false} EvalFrameAny(src: Value, quoted: Expr, env1: Env, env2: Env)
    requires Agree(env1, env2, ParamsOf(quoted))
    ensures EvalAny(src, quoted, env1) == EvalAny(src, quoted, env2)
    decreases quoted, 0
  {
    match quoted
    case Unary(_, Quote, Lambda(_, body, ps), _, _) =>
      if |ps| == 1 && src.Items? {
        assert ParamsOf(body) <= ParamsOf(quoted);
        EvalFrameBound(body, ps[0], src.items, env1, env2);
      }
    case _ =>
  }

  /** Binding the lambda parameter to each item keeps two agreeing environments agreeing on the body. */
  lemma EvalFrameBound(body: Expr, p: Expr, items: seq<Value>, env1: Env, env2: Env)
    requires Agree(env1, env2, ParamsOf(body))
    ensures forall i | 0 <= i < |items| :: Eval(body, env1[p := items[i]]) == Eval(body, env2[p := items[i]])
    decreases body, 3
  {
    forall i | 0 <= i < |items|
      ensures Eval(body, env1[p := items[i]]) == Eval(body, env2[p := items[i]])
    {
      EvalFrame(body, env1[p := items[i]], env2[p := items[i]]);
    }
  }
}
