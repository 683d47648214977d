/**
  The assert-args rule: inside a test, every assertion made through the test's
  assertion handle must be called with an argument count the assertion
  accepts, possibly followed by one message argument.
*/
module AssertArgs {
  import opened Optional
  import opened Estree
  import opened Strings
  import opened QUnitUtils
  import opened TestStack

  /** The two diagnostics; the second says no message argument was recognised. */
  datatype MessageId = UnexpectedArgCount | UnexpectedArgCountNoMessage

  /** A `context.report` call: the node, the message and its two placeholders. */
  datatype Report = Report(node: Node, messageId: MessageId, callee: string, argCount: string)

  /** `isPossibleMessage`: the policy deciding whether an argument may be an
      assertion message. For now every node may be one. */
  predicate IsPossibleMessage(arg: Node) {
    true
  }

  /** `mayHaveMessage`: there is a last argument and it may be a message. */
  predicate MayHaveMessage(args: seq<Node>) {
    |args| > 0 && IsPossibleMessage(args[|args| - 1])
  }

  /** `definitelyTooFewArgs`: every allowed arity exceeds the argument count
      (`every` over an empty list is true). */
  predicate DefinitelyTooFewArgs(argCount: nat, arities: seq<int>) {
    forall k :: k in arities ==> argCount < k
  }

  /** The decision of `checkAssertArity` for a call with arguments `args`
      against the allowed arities: None accepts the call, Some names the report. */
  function ArityVerdict(args: seq<Node>, arities: seq<int>): (r: Option<MessageId>)
    ensures r.None? <==> |args| in arities || (|args| > 0 && |args| - 1 in arities)
    ensures r == Some(UnexpectedArgCount) <==>
      r.Some? && |args| > 0 && exists k :: k in arities && k <= |args|
    ensures |args| == 0 && r.Some? ==> r == Some(UnexpectedArgCountNoMessage)
  {
    var n := |args|;
    var mayHaveMessage := MayHaveMessage(args);
    if mayHaveMessage && n - 1 in arities then None
    else if n in arities then None
    else if mayHaveMessage && !DefinitelyTooFewArgs(n, arities) then Some(UnexpectedArgCount)
    else Some(UnexpectedArgCountNoMessage)
  }

  /** Every argument may be a message, so a message is possible exactly when
      there is at least one argument. */
  lemma MayHaveMessageIffArguments(args: seq<Node>)
    ensures MayHaveMessage(args) <==> |args| > 0
  {
  }

  /** The verdict depends on the arguments only through their number. */
  lemma VerdictDependsOnCountOnly(args: seq<Node>, others: seq<Node>, arities: seq<int>)
    requires |args| == |others|
    ensures ArityVerdict(args, arities) == ArityVerdict(others, arities)
  {
  }

  /** An empty arity list is not skipped: every call is reported, without a message. */
  lemma EmptyAritiesAlwaysReported(args: seq<Node>)
    ensures ArityVerdict(args, []) == Some(UnexpectedArgCountNoMessage)
  {
  }

  /** `checkAssertArity`: a call under a truthy handle is reported exactly
      when its count is rejected, at most once, with its callee text and its
      argument count in decimal. */
  function CheckAssertArity(u: Utils, text: Node -> string, call: Node, stack: seq<Scope>): (r: seq<Report>)
    requires |stack| > 0
    ensures |r| <= 1
    ensures r != [] ==>
      && call.CallExpression?
      && Truthy(GetAssertContext(stack))
      && r[0].node == call
      && r[0].callee == text(call.callee)
      && AllDigits(r[0].argCount) && DecimalValue(r[0].argCount) == |call.arguments|
      && (|r[0].argCount| > 1 ==> r[0].argCount[0] != '0')
      && ArityVerdict(call.arguments, u.getAllowedArities(call.callee, GetAssertContext(stack).value)) == Some(r[0].messageId)
    ensures call.CallExpression? && Truthy(GetAssertContext(stack))
      && ArityVerdict(call.arguments, u.getAllowedArities(call.callee, GetAssertContext(stack).value)).Some?
      ==> r != []
  {
    if !call.CallExpression? then []
    else
      var assertContextVar := GetAssertContext(stack);
      if !Truthy(assertContextVar) then []
      else
        var allowedArities := u.getAllowedArities(call.callee, assertContextVar.value);
        match ArityVerdict(call.arguments, allowedArities)
        case None => []
        case Some(messageId) =>
          DecimalRoundTrip(|call.arguments|);
          [Report(call, messageId, text(call.callee), DecimalString(|call.arguments|))]
  }

  /** The `else if (testStack.length > 0)` branch of the `CallExpression`
      handler, reached for every call that is not a test. */
  function OnCall(u: Utils, text: Node -> string, node: Node, stack: seq<Scope>): seq<Report>
  {
    if node.CallExpression? && |stack| > 0 then
      var assertContext := GetAssertContext(stack);
      if Truthy(assertContext) && u.isAssertion(node.callee, assertContext.value) then
        CheckAssertArity(u, text, node, stack)
      else []
    else []
  }

  function Visitor(u: Utils, text: Node -> string): (Node, seq<Scope>) -> seq<Report>
  {
    (n: Node, s: seq<Scope>) => OnCall(u, text, n, s)
  }

  /** The rule over a whole file. */
  function Run(u: Utils, text: Node -> string, root: Node): seq<Report>
  {
    Walk(u, Visitor(u, text), root, []).1
  }

  /** A call the rule checks: an assertion, not itself a test, made through
      the truthy handle of the nearest enclosing test call. */
  predicate IsCheckedCall(u: Utils, node: Node, ancestors: seq<Node>) {
    && node.CallExpression?
    && !u.isTest(node.callee)
    && Truthy(InnermostHandle(u, ancestors))
    && u.isAssertion(node.callee, InnermostHandle(u, ancestors).value)
  }

  /** `d` is the report for the checked call `node` made through `handle`. */
  predicate IsReportFor(u: Utils, text: Node -> string, node: Node, handle: string, d: Report)
    requires node.CallExpression?
  {
    && d.node == node
    && d.callee == text(node.callee)
    && d.argCount == DecimalString(|node.arguments|)
    && ArityVerdict(node.arguments, u.getAllowedArities(node.callee, handle)) == Some(d.messageId)
  }

  lemma {:induction false} VisitorAtOccurrence(u: Utils, text: Node -> string, o: Occurrence, d: Report)
    ensures d in ScopedVisitor(u, Visitor(u, text))(o) <==>
      IsCheckedCall(u, o.node, o.ancestors) && IsReportFor(u, text, o.node, InnermostHandle(u, o.ancestors).value, d)
  {
    ScopesOfInnermost(u, o.ancestors);
  }

  /** The rule reports exactly the checked calls, anywhere in the file, whose
      argument count is rejected, each with the verdict's message. */
  lemma {:induction false} RunReportsRejectedCheckedCalls(u: Utils, text: Node -> string, root: Node, d: Report)
    ensures var os := Occurrences(root, []);
      d in Run(u, text, root) <==>
        exists i :: 0 <= i < |os| && IsCheckedCall(u, os[i].node, os[i].ancestors)
          && IsReportFor(u, text, os[i].node, InnermostHandle(u, os[i].ancestors).value, d)
  {
    var os := Occurrences(root, []);
    var f := ScopedVisitor(u, Visitor(u, text));
    FileRunFollowsAncestors(u, Visitor(u, text), root);
    InCollectAll(os, f, d);
    forall i | 0 <= i < |os|
      ensures d in f(os[i]) <==>
        IsCheckedCall(u, os[i].node, os[i].ancestors) && IsReportFor(u, text, os[i].node, InnermostHandle(u, os[i].ancestors).value, d)
    {
      VisitorAtOccurrence(u, text, os[i], d);
    }
  }
}
