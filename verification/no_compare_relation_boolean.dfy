/**
  The no-compare-relation-boolean rule: a comparing assertion whose first two
  arguments are a relational expression and a boolean literal
  (`assert.equal(a < b, true)`) is reported, with a fix that asserts the
  relation directly (`assert.ok(a < b)`).
*/
module NoCompareRelationBoolean {
  import opened Optional
  import opened Estree
  import opened Strings
  import opened QUnitUtils
  import opened TestStack

  /** `RELATIONAL_OPS`. */
  const RelationalOps: set<string> := {"==", "!=", "===", "!==", "<", "<=", ">", ">=", "in", "instanceof"}

  /** A `redundantComparison` report with the text its fixer would write, or
      None when the fixer declines. */
  datatype Report = RedundantComparison(node: Node, fix: Option<string>)

  predicate IsBooleanLiteral(n: Node) {
    n.Literal? && n.value.BooleanValue?
  }

  predicate IsRelationalExpression(n: Node) {
    n.BinaryExpression? && n.operator in RelationalOps
  }

  /** `shouldCheckArguments`: the innermost handle is truthy and the callee is
      a comparing assertion through it. */
  predicate ShouldCheckArguments(u: Utils, callee: Node, stack: seq<Scope>)
    requires |stack| > 0
  {
    var assertContextVar := GetAssertContext(stack);
    Truthy(assertContextVar)
      && u.isAssertion(callee, assertContextVar.value)
      && u.isComparativeAssertion(callee, assertContextVar.value)
  }

  /** `sortLiteralFirst`, the comparator: a literal sorts before a non-literal. */
  function SortLiteralFirst(a: Node, b: Node): int
  {
    if a.Literal? && !b.Literal? then -1
    else if !a.Literal? && b.Literal? then 1
    else 0
  }

  /** The comparator is antisymmetric, so a sort gives the same pair whichever
      order the engine passes the two elements to it. */
  lemma SortLiteralFirstAntisymmetric(a: Node, b: Node)
    ensures SortLiteralFirst(a, b) in {-1, 0, 1}
    ensures SortLiteralFirst(a, b) == -SortLiteralFirst(b, a)
    ensures SortLiteralFirst(a, b) == 0 <==> a.Literal? == b.Literal?
  {
  }

  /** `args.slice(0, 2).sort(sortLiteralFirst)`: the stable sort of a pair. */
  function SortPair(a: Node, b: Node): (r: seq<Node>)
    ensures |r| == 2 && multiset(r) == multiset{a, b}
    ensures SortLiteralFirst(r[0], r[1]) <= 0
    ensures a.Literal? != b.Literal? ==> r[0].Literal? && !r[1].Literal?
    ensures a.Literal? == b.Literal? ==> r == [a, b]
  {
    if SortLiteralFirst(a, b) > 0 then [b, a] else [a, b]
  }

  /** `literal` and `relation` are the first two arguments, in either order. */
  predicate ArePairOfFirstTwo(args: seq<Node>, literal: Node, relation: Node) {
    |args| >= 2 &&
    ((literal == args[0] && relation == args[1]) || (literal == args[1] && relation == args[0]))
  }

  /** The fixer's assertion name: `ok` for an even number of negations among
      "the method name starts with `not`" and "the literal is `false`". */
  function FixMethodName(methodName: string, literal: bool): (r: string)
    ensures r == "ok" || r == "notOk"
    ensures r == "ok" <==> StartsWith(methodName, "not") != literal
  {
    var countNegations := (if StartsWith(methodName, "not") then 1 else 0) + (if !literal then 1 else 0);
    if countNegations % 2 == 0 then "ok" else "notOk"
  }

  /** The fixed call's arguments: the relational expression, then the original
      arguments from the third on. The boolean literal is the only one dropped. */
  function FixArguments(args: seq<Node>, literal: Node, relation: Node): (r: seq<Node>)
    requires ArePairOfFirstTwo(args, literal, relation)
    ensures |r| == |args| - 1 && r[0] == relation
    ensures forall i :: 1 <= i < |r| ==> r[i] == args[i + 1]
    ensures multiset(r) + multiset{literal} == multiset(args)
  {
    assert args == [args[0], args[1]] + args[2..];
    [relation] + args[2..]
  }

  function Texts(text: Node -> string, ns: seq<Node>): (r: seq<string>)
    ensures |r| == |ns| && forall i :: 0 <= i < |ns| ==> r[i] == text(ns[i])
  {
    if ns == [] then [] else [text(ns[0])] + Texts(text, ns[1..])
  }

  /** The `fix` callback: `<handle>.<ok|notOk>(<arguments>)` when the callee
      is `<identifier>.<identifier>`, nothing otherwise. */
  function Fix(text: Node -> string, call: Node, literal: Node, relation: Node): (r: Option<string>)
    requires IsBooleanLiteral(literal)
    requires call.CallExpression? && ArePairOfFirstTwo(call.arguments, literal, relation)
    ensures r.Some? <==>
      call.callee.MemberExpression? && call.callee.obj.Identifier? && call.callee.property.Identifier?
    ensures r.Some? ==>
      r.value == call.callee.obj.name + "."
        + FixMethodName(call.callee.property.name, literal.value.b)
        + "(" + text(relation) + Prefixed(Texts(text, call.arguments[2..]), ", ") + ")"
  {
    if !call.callee.MemberExpression? then None
    else if !call.callee.obj.Identifier? then None
    else if !call.callee.property.Identifier? then None
    else
      var assertionVariableName := call.callee.obj.name;
      var newAssertionFunctionName := FixMethodName(call.callee.property.name, literal.value.b);
      var newArgs := FixArguments(call.arguments, literal, relation);
      assert newArgs == [relation] + call.arguments[2..];
      assert Texts(text, newArgs) == [text(relation)] + Texts(text, call.arguments[2..]);
      JoinAsPrefixed(text(relation), Texts(text, call.arguments[2..]), ", ");
      Some(assertionVariableName + "." + newAssertionFunctionName + "(" + Join(Texts(text, newArgs), ", ") + ")")
  }

  /** `checkAndReport`. */
  function CheckAndReport(text: Node -> string, call: Node, literal: Node, relation: Node): seq<Report>
    requires call.CallExpression? && ArePairOfFirstTwo(call.arguments, literal, relation)
  {
    if relation.BinaryExpression? && relation.operator in RelationalOps && literal.Literal? && literal.value.BooleanValue? then
      [RedundantComparison(call, Fix(text, call, literal, relation))]
    else []
  }

  /** `checkAssertArguments`: a report exactly when one of the first two
      arguments is a boolean literal and the other a relational expression. */
  function CheckAssertArguments(text: Node -> string, call: Node): (r: seq<Report>)
    ensures |r| <= 1
    ensures r != [] <==>
      call.CallExpression? && |call.arguments| >= 2 &&
      ((IsBooleanLiteral(call.arguments[0]) && IsRelationalExpression(call.arguments[1])) ||
       (IsBooleanLiteral(call.arguments[1]) && IsRelationalExpression(call.arguments[0])))
    ensures r != [] ==> r[0].node == call
    ensures r != [] && IsBooleanLiteral(call.arguments[0]) ==>
      r == [RedundantComparison(call, Fix(text, call, call.arguments[0], call.arguments[1]))]
    ensures r != [] && IsBooleanLiteral(call.arguments[1]) ==>
      r == [RedundantComparison(call, Fix(text, call, call.arguments[1], call.arguments[0]))]
  {
    if !call.CallExpression? then []
    else
      var args := call.arguments;
      if |args| < 2 then []
      else
        var firstTwoArgsSorted := SortPair(args[0], args[1]);
        if firstTwoArgsSorted[0].Literal? && firstTwoArgsSorted[1].BinaryExpression? then
          CheckAndReport(text, call, firstTwoArgsSorted[0], firstTwoArgsSorted[1])
        else []
  }

  /** The `else if` branch of the `CallExpression` handler, reached for every
      call that is not a test. */
  function OnCall(u: Utils, text: Node -> string, node: Node, stack: seq<Scope>): seq<Report>
  {
    if node.CallExpression? && |stack| > 0 && ShouldCheckArguments(u, node.callee, stack) then
      CheckAssertArguments(text, node)
    else []
  }

  function Visitor(u: Utils, text: Node -> string): (Node, seq<Scope>) -> seq<Report>
  {
    (n: Node, s: seq<Scope>) => OnCall(u, text, n, s)
  }

  /** The rule over a whole file. */
  function Run(u: Utils, text: Node -> string, root: Node): seq<Report>
  {
    Walk(u, Visitor(u, text), root, []).1
  }

  /** A call whose arguments the rule inspects: a comparing assertion, not
      itself a test, through the truthy handle of the nearest enclosing test. */
  predicate IsCheckedCall(u: Utils, node: Node, ancestors: seq<Node>) {
    && node.CallExpression?
    && !u.isTest(node.callee)
    && Truthy(InnermostHandle(u, ancestors))
    && u.isAssertion(node.callee, InnermostHandle(u, ancestors).value)
    && u.isComparativeAssertion(node.callee, InnermostHandle(u, ancestors).value)
  }

  lemma {:induction false} VisitorAtOccurrence(u: Utils, text: Node -> string, o: Occurrence, d: Report)
    ensures d in ScopedVisitor(u, Visitor(u, text))(o) <==>
      IsCheckedCall(u, o.node, o.ancestors) && d in CheckAssertArguments(text, o.node)
  {
    ScopesOfInnermost(u, o.ancestors);
  }

  /** The rule reports exactly the checked calls, anywhere in the file, whose
      first two arguments compare a relation with a boolean literal. */
  lemma {:induction false} RunReportsCheckedComparisons(u: Utils, text: Node -> string, root: Node, d: Report)
    ensures var os := Occurrences(root, []);
      d in Run(u, text, root) <==>
        exists i :: 0 <= i < |os| && IsCheckedCall(u, os[i].node, os[i].ancestors)
          && d in CheckAssertArguments(text, os[i].node)
  {
    var os := Occurrences(root, []);
    var f := ScopedVisitor(u, Visitor(u, text));
    FileRunFollowsAncestors(u, Visitor(u, text), root);
    InCollectAll(os, f, d);
    forall i | 0 <= i < |os|
      ensures d in f(os[i]) <==> IsCheckedCall(u, os[i].node, os[i].ancestors) && d in CheckAssertArguments(text, os[i].node)
    {
      VisitorAtOccurrence(u, text, os[i], d);
    }
  }
}
