/**
  The stack of open test scopes that assert-args and no-compare-relation-boolean
  both keep, and the depth-first traversal that drives it.

  On entering a test call the rule pushes a scope holding the test's
  assertion-handle name; on leaving a call whose callee is a test it pops.
  Every other call is handed, with the current stack, to the rule's own
  visitor. `Walk` threads the stack through the tree exactly as the two event
  handlers mutate it; `ScopesOf` is the independent description of the same
  stack in terms of the node's ancestors.
*/
module TestStack {
  import opened Optional
  import opened Estree
  import opened QUnitUtils

  /** One entry of `testStack`: `{assertContextVar: string | null}`. */
  datatype Scope = Scope(assertContextVar: Option<string>)

  /** The scope a test call opens. */
  function ScopeFor(u: Utils, test: Node): Scope
    requires test.CallExpression?
  {
    Scope(u.getAssertContextNameForTest(test.arguments))
  }

  function Push(stack: seq<Scope>, s: Scope): (r: seq<Scope>)
    ensures |r| == |stack| + 1 && r[..|stack|] == stack && r[|stack|] == s
  {
    stack + [s]
  }

  /** `Array.prototype.pop`, which leaves an empty array as it is. */
  function Pop(stack: seq<Scope>): seq<Scope>
  {
    if |stack| == 0 then stack else stack[..|stack| - 1]
  }

  /** Popping undoes pushing, and the only stack pop leaves unchanged is the empty one. */
  lemma PopUndoesPush(stack: seq<Scope>, s: Scope)
    ensures Pop(Push(stack, s)) == stack
    ensures Pop(stack) == stack <==> stack == []
  {
  }

  /** `getAssertContext`: the innermost scope's handle. The source guards the
      read with `assert.ok(testStack.length)`, which is this precondition. */
  function GetAssertContext(stack: seq<Scope>): Option<string>
    requires |stack| > 0
  {
    stack[|stack| - 1].assertContextVar
  }

  /** The `CallExpression` enter handler: a test call pushes its scope, any
      other call goes to the rule's visitor with the current stack. */
  function OnEnter<D>(u: Utils, visit: (Node, seq<Scope>) -> seq<D>, n: Node, stack: seq<Scope>): (seq<Scope>, seq<D>)
  {
    if !n.CallExpression? then (stack, [])
    else if u.isTest(n.callee) then (Push(stack, ScopeFor(u, n)), [])
    else (stack, visit(n, stack))
  }

  /** The `CallExpression:exit` handler: pops when the callee is a test. */
  function OnExit(u: Utils, n: Node, stack: seq<Scope>): seq<Scope>
  {
    if IsTestCall(u, n) then Pop(stack) else stack
  }

  /** The traversal of one subtree: enter the node, walk its children in
      order, leave the node. It gives the stack back as it found it. */
  function Walk<D>(u: Utils, visit: (Node, seq<Scope>) -> seq<D>, n: Node, stack: seq<Scope>): (r: (seq<Scope>, seq<D>))
    ensures r.0 == stack
    decreases Size(n), 0
  {
    var entered := OnEnter(u, visit, n, stack);
    var inner := WalkSeq(u, visit, Children(n), entered.0);
    (OnExit(u, n, inner.0), entered.1 + inner.1)
  }

  function WalkSeq<D>(u: Utils, visit: (Node, seq<Scope>) -> seq<D>, ns: seq<Node>, stack: seq<Scope>): (r: (seq<Scope>, seq<D>))
    ensures r.0 == stack
    decreases SizeSeq(ns), 1
  {
    if ns == [] then (stack, [])
    else
      var first := Walk(u, visit, ns[0], stack);
      var rest := WalkSeq(u, visit, ns[1..], first.0);
      (rest.0, first.1 + rest.1)
  }

  /** When a test call is left, its own push is still on the stack, so the
      exit handler's pop never meets an empty stack. */
  lemma PopNeverOnEmpty<D>(u: Utils, visit: (Node, seq<Scope>) -> seq<D>, n: Node, stack: seq<Scope>)
    requires IsTestCall(u, n)
    ensures var entered := OnEnter(u, visit, n, stack).0;
      WalkSeq(u, visit, Children(n), entered).0 == Push(stack, ScopeFor(u, n))
  {
  }

  /** The scopes opened by the test calls among the ancestors, outermost first. */
  function ScopesOf(u: Utils, ancestors: seq<Node>): seq<Scope>
    decreases |ancestors|
  {
    if |ancestors| == 0 then []
    else
      var outer := ScopesOf(u, ancestors[..|ancestors| - 1]);
      var parent := ancestors[|ancestors| - 1];
      if IsTestCall(u, parent) then Push(outer, ScopeFor(u, parent)) else outer
  }

  /** The handle of the nearest enclosing test call; None outside every test. */
  function InnermostHandle(u: Utils, ancestors: seq<Node>): Option<string>
  {
    match NearestTestCall(u, ancestors)
    case None => None
    case Some(i) => u.getAssertContextNameForTest(ancestors[i].arguments)
  }

  /** The stack is non-empty exactly inside some test call, and its top is
      the scope of the nearest enclosing test call. */
  lemma {:induction false} ScopesOfInnermost(u: Utils, ancestors: seq<Node>)
    ensures |ScopesOf(u, ancestors)| > 0 <==> NearestTestCall(u, ancestors).Some?
    ensures |ScopesOf(u, ancestors)| > 0 ==> GetAssertContext(ScopesOf(u, ancestors)) == InnermostHandle(u, ancestors)
    decreases |ancestors|
  {
    if |ancestors| > 0 && !IsTestCall(u, ancestors[|ancestors| - 1]) {
      ScopesOfInnermost(u, ancestors[..|ancestors| - 1]);
    }
  }

  /** What a rule's visitor does at one occurrence, fed the ancestor-derived stack. */
  function ScopedVisitor<D>(u: Utils, visit: (Node, seq<Scope>) -> seq<D>): Occurrence -> seq<D>
  {
    (o: Occurrence) => if o.node.CallExpression? && !u.isTest(o.node.callee) then visit(o.node, ScopesOf(u, o.ancestors)) else []
  }

  /** Walking a subtree from the stack its ancestors define produces, in
      traversal order, what the visitor says at each non-test call given that
      call's own ancestor-derived stack. */
  lemma {:induction false} WalkFollowsAncestors<D>(u: Utils, visit: (Node, seq<Scope>) -> seq<D>, n: Node, ancestors: seq<Node>)
    ensures Walk(u, visit, n, ScopesOf(u, ancestors)).1 == CollectAll(Occurrences(n, ancestors), ScopedVisitor(u, visit))
    decreases Size(n), 0
  {
    var f := ScopedVisitor(u, visit);
    var inner := ancestors + [n];
    assert inner[..|inner| - 1] == ancestors;
    assert OnEnter(u, visit, n, ScopesOf(u, ancestors)).0 == ScopesOf(u, inner);
    WalkSeqFollowsAncestors(u, visit, Children(n), inner);
    CollectAllAppend([Occurrence(n, ancestors)], OccurrencesSeq(Children(n), inner), f);
    assert CollectAll([Occurrence(n, ancestors)], f) == f(Occurrence(n, ancestors));
  }

  lemma {:induction false} WalkSeqFollowsAncestors<D>(u: Utils, visit: (Node, seq<Scope>) -> seq<D>, ns: seq<Node>, ancestors: seq<Node>)
    ensures WalkSeq(u, visit, ns, ScopesOf(u, ancestors)).1 == CollectAll(OccurrencesSeq(ns, ancestors), ScopedVisitor(u, visit))
    decreases SizeSeq(ns), 1
  {
    if ns != [] {
      WalkFollowsAncestors(u, visit, ns[0], ancestors);
      WalkSeqFollowsAncestors(u, visit, ns[1..], ancestors);
      CollectAllAppend(Occurrences(ns[0], ancestors), OccurrencesSeq(ns[1..], ancestors), ScopedVisitor(u, visit));
    }
  }

  /** A whole-file run, started with an empty stack, ends with an empty stack
      and produces exactly the ancestor-described diagnostics. */
  lemma FileRunFollowsAncestors<D>(u: Utils, visit: (Node, seq<Scope>) -> seq<D>, root: Node)
    ensures Walk(u, visit, root, []).0 == []
    ensures Walk(u, visit, root, []).1 == CollectAll(Occurrences(root, []), ScopedVisitor(u, visit))
  {
    assert ScopesOf(u, []) == [];
    WalkFollowsAncestors(u, visit, root, []);
  }
}
