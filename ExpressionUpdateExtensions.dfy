/**
 * The Update overloads: a node with possibly new children is the very same
 * node when every child is the same object, and otherwise a new node of the
 * same kind.  `n` is the id a new node takes; a node passed in with an id
 * below `n` is thereby distinct from any node built here.
 */
module ExpressionUpdateExtensions {
  import opened Wrappers
  import opened Expressions

  /**
   * The argument collection handed to an Update: the node's own collection
   * object, or a freshly built list, which is never that object.
   */
  datatype Arguments = OwnArguments | NewList(items: seq<Expr>)

  function ArgumentItems(a: Arguments, own: seq<Expr>): seq<Expr> {
    if a.OwnArguments? then own else a.items
  }

  function UpdateBinary(node: Expr, left: Expr, conversion: Option<Expr>, right: Expr, n: nat): (r: Built)
    requires node.Binary?
    ensures node.id < n ==> (r.e == node <==> left == node.left && right == node.right && conversion == node.conversion)
    ensures r.e.Binary? && r.e.left == left && r.e.right == right && r.e.conversion == conversion
    ensures r.e.op == node.op && r.e.liftToNull == node.liftToNull && r.e.binaryMethod == node.binaryMethod
    ensures r.next == n ==> r.e == node
    ensures r.next != n ==> r.e.id == n && r.next == n + 1
  {
    if left == node.left && right == node.right && conversion == node.conversion then Built(node, n)
    else Built(Binary(n, node.op, left, right, conversion, node.liftToNull, node.binaryMethod), n + 1)
  }

  function UpdateConditional(node: Expr, test: Expr, ifTrue: Expr, ifFalse: Expr, n: nat): (r: Built)
    requires node.Conditional?
    ensures node.id < n ==> (r.e == node <==> test == node.test && ifTrue == node.ifTrue && ifFalse == node.ifFalse)
    ensures r.e.Conditional? && r.e.test == test && r.e.ifTrue == ifTrue && r.e.ifFalse == ifFalse
    ensures r.next == n ==> r.e == node
    ensures r.next != n ==> r.e.id == n && r.next == n + 1
  {
    if test == node.test && ifTrue == node.ifTrue && ifFalse == node.ifFalse then Built(node, n)
    else Built(Conditional(n, test, ifTrue, ifFalse), n + 1)
  }

  function UpdateInvocation(node: Expr, callee: Expr, arguments: Arguments, n: nat): (r: Built)
    requires node.Invocation?
    ensures node.id < n ==> (r.e == node <==> callee == node.callee && arguments.OwnArguments?)
    ensures r.e.Invocation? && r.e.callee == callee && r.e.args == ArgumentItems(arguments, node.args)
    ensures r.next == n ==> r.e == node
    ensures r.next != n ==> r.e.id == n && r.next == n + 1
  {
    if callee == node.callee && arguments.OwnArguments? then Built(node, n)
    else Built(Invocation(n, callee, ArgumentItems(arguments, node.args)), n + 1)
  }

  function UpdateMember(node: Expr, target: Option<Expr>, n: nat): (r: Built)
    requires node.Member?
    ensures node.id < n ==> (r.e == node <==> target == node.target)
    ensures r.e.Member? && r.e.target == target && r.e.member == node.member
    ensures r.next == n ==> r.e == node
    ensures r.next != n ==> r.e.id == n && r.next == n + 1
  {
    if target == node.target then Built(node, n)
    else Built(Member(n, target, node.member), n + 1)
  }

  function UpdateCall(node: Expr, obj: Option<Expr>, arguments: Arguments, n: nat): (r: Built)
    requires node.Call?
    ensures node.id < n ==> (r.e == node <==> obj == node.obj && arguments.OwnArguments?)
    ensures r.e.Call? && r.e.obj == obj && r.e.args == ArgumentItems(arguments, node.args)
    ensures r.e.callMethod == node.callMethod
    ensures r.next == n ==> r.e == node
    ensures r.next != n ==> r.e.id == n && r.next == n + 1
  {
    if obj == node.obj && arguments.OwnArguments? then Built(node, n)
    else Built(Call(n, obj, node.callMethod, ArgumentItems(arguments, node.args)), n + 1)
  }

  function UpdateUnary(node: Expr, operand: Expr, n: nat): (r: Built)
    requires node.Unary?
    ensures node.id < n ==> (r.e == node <==> operand == node.operand)
    ensures r.e.Unary? && r.e.operand == operand
    ensures r.e.uop == node.uop && r.e.ty == node.ty && r.e.unaryMethod == node.unaryMethod
    ensures r.next == n ==> r.e == node
    ensures r.next != n ==> r.e.id == n && r.next == n + 1
  {
    if operand == node.operand then Built(node, n)
    else Built(Unary(n, node.uop, operand, node.ty, node.unaryMethod), n + 1)
  }

  function UpdateLambda(node: Expr, body: Expr, parameters: Arguments, n: nat): (r: Built)
    requires node.Lambda?
    ensures node.id < n ==> (r.e == node <==> body == node.body && parameters.OwnArguments?)
    ensures r.e.Lambda? && r.e.body == body && r.e.params == ArgumentItems(parameters, node.params)
    ensures r.next == n ==> r.e == node
    ensures r.next != n ==> r.e.id == n && r.next == n + 1
  {
    if body == node.body && parameters.OwnArguments? then Built(node, n)
    else Built(Lambda(n, body, ArgumentItems(parameters, node.params)), n + 1)
  }
}
