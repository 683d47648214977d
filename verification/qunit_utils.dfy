/**
  The QUnit-specific helpers the rules consult. Their definitions (lib/utils.js)
  are not part of this model, so each is an arbitrary function supplied by the
  caller; every property proved below holds for all of them.
*/
module QUnitUtils {
  import opened Optional
  import opened Estree

  datatype Utils = Utils(
    /** Does this callee designate a test-definition call (`QUnit.test`, `test`, ...)? */
    isTest: Node -> bool,
    /** The name the test callback gives its assertion handle, from the test call's arguments. */
    getAssertContextNameForTest: seq<Node> -> Option<string>,
    /** Is this callee an assertion made through the given handle? */
    isAssertion: (Node, string) -> bool,
    /** Is this callee a comparing assertion (`equal`, `strictEqual`, ...) through the handle? */
    isComparativeAssertion: (Node, string) -> bool,
    /** The argument counts the assertion accepts, not counting a trailing message. */
    getAllowedArities: (Node, string) -> seq<int>
  )

  /** JavaScript truthiness of a `string | null`: neither null nor the empty string. */
  predicate Truthy(s: Option<string>) {
    s.Some? && s.value != ""
  }

  /** A `CallExpression` whose callee `isTest` accepts. */
  predicate IsTestCall(u: Utils, n: Node) {
    n.CallExpression? && u.isTest(n.callee)
  }

  /** The walk up the `parent` links from a node: the index of the nearest
      ancestor that is a test call, or None when the walk reaches the root
      without meeting one. */
  function NearestTestCall(u: Utils, ancestors: seq<Node>): (r: Option<nat>)
    ensures r.Some? ==> r.value < |ancestors| && IsTestCall(u, ancestors[r.value])
    ensures r.Some? ==> forall j :: r.value < j < |ancestors| ==> !IsTestCall(u, ancestors[j])
    ensures r.None? <==> forall j :: 0 <= j < |ancestors| ==> !IsTestCall(u, ancestors[j])
    decreases |ancestors|
  {
    if |ancestors| == 0 then None
    else if IsTestCall(u, ancestors[|ancestors| - 1]) then Some(|ancestors| - 1)
    else NearestTestCall(u, ancestors[..|ancestors| - 1])
  }
}
