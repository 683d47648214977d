/**
  The part of an ESTree syntax tree that the rules look at.

  ESLint walks the tree depth-first in source order and hands every node to the
  rules together with its chain of `parent` links. Here the parent chain is the
  list of ancestors, root first and parent last, carried by each `Occurrence`.
*/
module Estree {

  /** The value of a `Literal` node. Numbers are abstracted to integers: no rule
      looks at a numeric value. */
  datatype LiteralValue =
    | BooleanValue(b: bool)
    | StringValue(s: string)
    | NumberValue(x: int)
    | NullValue

  /** The node types the rules distinguish; every other ESTree node type is an
      `OtherNode` carrying its type name and its children in visiting order. */
  datatype Node =
    | Identifier(name: string)
    | Literal(value: LiteralValue)
    | BinaryExpression(operator: string, left: Node, right: Node)
    | MemberExpression(obj: Node, property: Node)
    | CallExpression(callee: Node, arguments: seq<Node>)
    | OtherNode(kind: string, children: seq<Node>)

  /** Number of nodes in a tree; the measure that makes the traversals terminate. */
  function Size(n: Node): (r: nat)
    ensures r >= 1
  {
    match n
    case Identifier(_) => 1
    case Literal(_) => 1
    case BinaryExpression(_, l, r) => 1 + Size(l) + Size(r)
    case MemberExpression(o, p) => 1 + Size(o) + Size(p)
    case CallExpression(c, args) => 1 + Size(c) + SizeSeq(args)
    case OtherNode(_, cs) => 1 + SizeSeq(cs)
  }

  function SizeSeq(ns: seq<Node>): nat
  {
    if ns == [] then 0 else Size(ns[0]) + SizeSeq(ns[1..])
  }

  /** The children of a node in the order ESLint visits them: a call's callee
      before its arguments, a member expression's object before its property. */
  function Children(n: Node): (cs: seq<Node>)
    ensures SizeSeq(cs) < Size(n)
    ensures n.CallExpression? ==> |cs| == 1 + |n.arguments| && cs[0] == n.callee && cs[1..] == n.arguments
  {
    match n
    case Identifier(_) => []
    case Literal(_) => []
    case BinaryExpression(_, l, r) =>
      assert [l, r][1..] == [r] && [r][1..] == [];
      assert SizeSeq([r]) == Size(r);
      [l, r]
    case MemberExpression(o, p) =>
      assert [o, p][1..] == [p] && [p][1..] == [];
      assert SizeSeq([p]) == Size(p);
      [o, p]
    case CallExpression(c, args) =>
      assert ([c] + args)[1..] == args;
      [c] + args
    case OtherNode(_, cs) => cs
  }

  /** A node as the traversal meets it: the node and its ancestors, root first. */
  datatype Occurrence = Occurrence(node: Node, ancestors: seq<Node>)

  /** Every node of the tree rooted at `n`, in the depth-first order in which
      ESLint enters them, each with its ancestor chain (`ancestors` is the chain
      above `n` itself). */
  function Occurrences(n: Node, ancestors: seq<Node>): (r: seq<Occurrence>)
    ensures |r| > 0 && r[0] == Occurrence(n, ancestors)
    decreases Size(n), 0
  {
    [Occurrence(n, ancestors)] + OccurrencesSeq(Children(n), ancestors + [n])
  }

  function OccurrencesSeq(ns: seq<Node>, ancestors: seq<Node>): seq<Occurrence>
    decreases SizeSeq(ns), 1
  {
    if ns == [] then []
    else Occurrences(ns[0], ancestors) + OccurrencesSeq(ns[1..], ancestors)
  }

  /** The diagnostics a stateless visitor `f` produces over `os`, in order. */
  function CollectAll<D>(os: seq<Occurrence>, f: Occurrence -> seq<D>): seq<D>
  {
    if os == [] then [] else f(os[0]) + CollectAll(os[1..], f)
  }

  lemma {:induction false} CollectAllAppend<D>(a: seq<Occurrence>, b: seq<Occurrence>, f: Occurrence -> seq<D>)
    ensures CollectAll(a + b, f) == CollectAll(a, f) + CollectAll(b, f)
  {
    if a == [] {
      assert a + b == b;
    } else {
      assert (a + b)[1..] == a[1..] + b;
      CollectAllAppend(a[1..], b, f);
    }
  }

  /** A diagnostic is collected exactly when the visitor produces it at some occurrence. */
  lemma {:induction false} InCollectAll<D>(os: seq<Occurrence>, f: Occurrence -> seq<D>, d: D)
    ensures d in CollectAll(os, f) <==> exists i :: 0 <= i < |os| && d in f(os[i])
  {
    if os != [] {
      InCollectAll(os[1..], f, d);
      if d in CollectAll(os[1..], f) {
        var i :| 0 <= i < |os[1..]| && d in f(os[1..][i]);
        assert d in f(os[i + 1]);
      }
      if exists i :: 0 <= i < |os| && d in f(os[i]) {
        var i :| 0 <= i < |os| && d in f(os[i]);
        if i > 0 {
          assert d in f(os[1..][i - 1]);
        }
      }
    }
  }
}
