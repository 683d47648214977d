# eslint-plugin-qunit: three stateful rules, modelled in Dafny

This project models the decision logic of three ESLint rules from
eslint-plugin-qunit, a plugin that flags misuse of QUnit's assertion API:

- **assert-args** checks, inside each test, that every assertion made through
  the test's assertion handle (`assert.equal(a, b)`) gets an argument count
  the assertion accepts. One extra trailing message argument is allowed. A
  rejected call gets `unexpectedArgCount` or `unexpectedArgCountNoMessage`.
- **no-compare-relation-boolean** reports comparing assertions whose first
  two arguments are a relational expression and a boolean literal
  (`assert.equal(a < b, true)`). It offers a fix that asserts the relation
  directly (`assert.ok(a < b)`).
- **no-nested-tests** reports a test call that sits inside another test call.

The syntax tree is an ESTree subset (`Estree.Node`). ESLint's depth-first
traversal is modelled twice:

- `TestStack.Walk` threads the rules' `testStack` through the tree exactly as
  the `CallExpression` enter and exit handlers push and pop it.
- `Estree.Occurrences` lists every node in visiting order together with its
  ancestor chain, which is what the `parent` links give.

`TestStack.ScopesOf` describes the stack from the ancestors alone. The main
theorem (`TestStack.WalkFollowsAncestors`) says the threaded traversal and
the ancestor description produce the same diagnostics. Each rule's whole-file
result is then characterised call by call: which calls are checked, and what
is reported for them.

The helpers from `lib/utils.js` (`isTest`, `getAssertContextNameForTest`,
`isAssertion`, `isComparativeAssertion`, `getAllowedArities`) are not part of
this model. They are fields of `QUnitUtils.Utils`, arbitrary functions
supplied by the caller. Every result holds for all of them. The source text of
a node (`sourceCode.getText`) is likewise a parameter `text: Node -> string`.
A report is a datatype value, and a rule's output is the sequence of its
reports in traversal order.

Behaviour worth knowing, modelled as the code has it:

- An empty list of allowed arities is not skipped. `every` over it is true and
  `includes` is false, so every such call is reported as
  `unexpectedArgCountNoMessage`.
- The exit handler pops whenever the callee satisfies `isTest`. It does not
  track which node pushed. Because the predicate is pure, the pushes and pops
  still pair up: `TestStack.Walk` gives every subtree's stack back unchanged,
  so a pop never meets an empty stack (`TestStack.PopNeverOnEmpty`). The `assert.ok` guard in
  `getAssertContext` / `shouldCheckArguments` is safe for a separate reason:
  both rules test `testStack.length > 0` before reaching it, which the model
  mirrors as `|stack| > 0` in each rule's `OnCall`.
- `isPossibleMessage` accepts every node. A message is therefore possible
  exactly when there is at least one argument.

## Model

| member | source | states |
|---|---|---|
| QUnitUtils.NearestTestCall | lib/rules/no-nested-tests.js:37-53 | The parent-chain walk finds the nearest ancestor that is a test call; None exactly when no ancestor is one |
| TestStack.PopUndoesPush | lib/rules/assert-args.js:114-135 | Popping after a push restores the stack; only the empty stack is left unchanged by a pop |
| TestStack.PopNeverOnEmpty | lib/rules/assert-args.js:131-135 | When the exit handler of a test call runs, the stack is the one its enter handler pushed, so the pop always removes that scope |
| TestStack.Walk | lib/rules/assert-args.js:112-136 | Traversing any subtree with the push-on-enter / pop-on-exit handlers leaves the scope stack exactly as it found it |
| TestStack.ScopesOfInnermost | lib/rules/assert-args.js:59-63 | The stack is non-empty exactly inside some test call, and its top holds the handle of the nearest enclosing test call |
| TestStack.WalkFollowsAncestors | lib/rules/assert-args.js:112-136 | The stack-threading traversal yields, in order, what the rule's visitor says at each non-test call given the stack of that call's test-call ancestors |
| TestStack.FileRunFollowsAncestors | lib/rules/no-compare-relation-boolean.js:179-200 | A whole-file run starts and ends with an empty stack and equals the ancestor-described diagnostics |
| Strings.DecimalString | lib/rules/assert-args.js:107 | The decimal text of a count is a non-empty string of digits without a leading zero |
| Strings.DecimalRoundTrip | lib/rules/assert-args.js:107 | Reading the decimal text of a count back gives the count |
| Strings.DecimalStringOfValue | lib/rules/assert-args.js:107 | Every canonical digit string is the decimal text of the number it denotes, so the text identifies the count |
| Strings.JoinAsPrefixed | lib/rules/no-compare-relation-boolean.js:139-143 | Joining with ", " gives the first text followed by every later text behind a ", " |
| AssertArgs.ArityVerdict | lib/rules/assert-args.js:83-104 | A call is accepted exactly when its count n, or n-1 with n > 0, is an allowed arity; a rejection is `unexpectedArgCount` exactly when n > 0 and some allowed arity is at most n; with no arguments any report is the no-message one |
| AssertArgs.MayHaveMessageIffArguments | lib/rules/assert-args.js:46-54 | Since every node may be a message, a message is possible exactly when there is an argument |
| AssertArgs.VerdictDependsOnCountOnly | lib/rules/assert-args.js:83-97 | The verdict is the same for any two argument lists of the same length, whatever the arguments are |
| AssertArgs.EmptyAritiesAlwaysReported | lib/rules/assert-args.js:78-104 | With no allowed arities every call is rejected as `unexpectedArgCountNoMessage` |
| AssertArgs.CheckAssertArity | lib/rules/assert-args.js:68-110 | A call under a truthy handle is reported exactly when its verdict rejects it; at most one report, naming that call, its callee text, its argument count as canonical decimal text (digits denoting the count, no leading zero) and the verdict's message; no report for a non-call or a null or empty handle |
| AssertArgs.VisitorAtOccurrence | lib/rules/assert-args.js:113-128 | At one node, a report arises exactly for a non-test assertion call through the truthy handle of the nearest enclosing test whose count is rejected |
| AssertArgs.RunReportsRejectedCheckedCalls | lib/rules/assert-args.js:112-136 | Over a whole file, the reports are exactly those of checked calls with rejected counts: none outside tests, none under a null or empty handle, none for test calls themselves |
| NoCompareRelationBoolean.SortLiteralFirstAntisymmetric | lib/rules/no-compare-relation-boolean.js:77-87 | The comparator returns -1, 0 or 1, is antisymmetric, and returns 0 exactly when both or neither argument is a literal |
| NoCompareRelationBoolean.SortPair | lib/rules/no-compare-relation-boolean.js:165 | Sorting the first two arguments permutes them, puts the literal first when exactly one is a literal, and keeps their order otherwise |
| NoCompareRelationBoolean.FixMethodName | lib/rules/no-compare-relation-boolean.js:128-138 | The fix uses `ok` exactly when "method starts with not" differs from the literal's value, and `notOk` otherwise |
| NoCompareRelationBoolean.FixArguments | lib/rules/no-compare-relation-boolean.js:139-142 | The new arguments are the relation followed by the original third and later arguments; together with the dropped literal they are the original arguments |
| NoCompareRelationBoolean.Fix | lib/rules/no-compare-relation-boolean.js:104-148 | A fix exists exactly when the callee is identifier.identifier; its text is `handle.ok(...)` or `handle.notOk(...)` with the relation's text then each remaining argument's text behind ", " |
| NoCompareRelationBoolean.CheckAssertArguments | lib/rules/no-compare-relation-boolean.js:94-177 | At most one report; a report exactly when the call has two or more arguments and one of the first two is a boolean literal and the other a relational expression, with the fix built from that pair |
| NoCompareRelationBoolean.VisitorAtOccurrence | lib/rules/no-compare-relation-boolean.js:179-200 | At one node, a report arises exactly for a non-test comparing assertion through the truthy handle of the nearest enclosing test whose arguments are reported |
| NoCompareRelationBoolean.RunReportsCheckedComparisons | lib/rules/no-compare-relation-boolean.js:179-200 | Over a whole file, the reports are exactly those of checked comparing assertions whose first two arguments compare a relation with a boolean |
| NoNestedTests.Visit | lib/rules/no-nested-tests.js:35-55 | At most one report per node; a report exactly for a test call with some test call among its proper ancestors; no report for a non-test call |
| NoNestedTests.RootNotReported | lib/rules/no-nested-tests.js:38-53 | A node without a parent is never reported |
| NoNestedTests.RunReportsNestedTests | lib/rules/no-nested-tests.js:35-55 | Over a whole file, the reports are exactly the test calls nested in another test call |

## Left out

- The helpers in `lib/utils.js` are not part of this model. They are caller-supplied functions, and no property depends on what they compute.
- ESLint plumbing is left out: rule metadata, message templates, selector strings and fixer objects. A report is a datatype value. The fixer's `replaceText` is the replacement string it would write.
- `sourceCode.getText` is an abstract function from nodes to strings. Nodes carry no source position or identity, so two structurally equal subtrees always get the same text and are indistinguishable in a report. A file where such subtrees differ only in formatting or comments (`a<b` against `a < b`) is not represented: both get the same callee text and the same fix text.
- The checks in `checkAssertArity` and `checkAssertArguments` that the node is a `CallExpression` are kept as early returns. The model only feeds them call nodes, so those branches never fire.
- The fixer's own `CallExpression` test and `checkAndReport`'s reliance on it are a precondition (`call.CallExpression?`) of `NoCompareRelationBoolean.Fix` and `NoCompareRelationBoolean.CheckAndReport` instead of the `return null` branch; `CheckAssertArguments` discharges it after its own type test. The fixer's tests of the callee's shape are modelled as `return null` (None).
- Literal values other than booleans are kept only as far as no rule looks at them. Numbers are integers, since floating point plays no part.
- `MemberExpression.computed` is not modelled. The rules never read it.
- no-qunit-stop, no-reset and no-jsdump are single stateless pattern matches. The first lives in a helper that is not part of this model. None of them is modelled.
- Running a rule twice gives the same reports in the same order. This holds because every rule is a pure function here, so it is not stated separately.
