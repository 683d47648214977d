/**
  The no-nested-tests rule: a test call that sits anywhere inside another
  test call is reported once.
*/
module NoNestedTests {
  import opened Optional
  import opened Estree
  import opened QUnitUtils

  /** A `noNestedTests` report. */
  datatype Report = NoNestedTests(node: Node)

  /** The `CallExpression` handler at one node: for a test call, walk the
      parent chain and report on the first ancestor that is a test call. */
  function Visit(u: Utils, o: Occurrence): (r: seq<Report>)
    ensures |r| <= 1
    ensures r != [] ==> r == [NoNestedTests(o.node)]
    ensures r != [] <==>
      IsTestCall(u, o.node) && exists j :: 0 <= j < |o.ancestors| && IsTestCall(u, o.ancestors[j])
  {
    if o.node.CallExpression? && u.isTest(o.node.callee) then
      match NearestTestCall(u, o.ancestors)
      case Some(_) => [NoNestedTests(o.node)]
      case None => []
    else []
  }

  function Visitor(u: Utils): Occurrence -> seq<Report>
  {
    (o: Occurrence) => Visit(u, o)
  }

  /** The rule over a whole file: ESLint calls the handler at every node. */
  function Run(u: Utils, root: Node): seq<Report>
  {
    CollectAll(Occurrences(root, []), Visitor(u))
  }

  /** The root has no parent, so it is never reported. */
  lemma RootNotReported(u: Utils, root: Node)
    ensures Visit(u, Occurrence(root, [])) == []
  {
  }

  /** The rule reports exactly the test calls that have a test call among
      their proper ancestors. */
  lemma {:induction false} RunReportsNestedTests(u: Utils, root: Node, d: Report)
    ensures var os := Occurrences(root, []);
      d in Run(u, root) <==>
        exists i :: 0 <= i < |os| && d.node == os[i].node && IsTestCall(u, os[i].node)
          && exists j :: 0 <= j < |os[i].ancestors| && IsTestCall(u, os[i].ancestors[j])
  {
    var os := Occurrences(root, []);
    InCollectAll(os, Visitor(u), d);
    forall i | 0 <= i < |os|
      ensures d in Visitor(u)(os[i]) <==>
        d.node == os[i].node && IsTestCall(u, os[i].node)
          && exists j :: 0 <= j < |os[i].ancestors| && IsTestCall(u, os[i].ancestors[j])
    {
    }
  }
}
