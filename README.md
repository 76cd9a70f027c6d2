# soql-parser-merge-where-clause in Dafny

This project models how `soql-parser-merge-where-clause` combines the WHERE
clauses of two SOQL queries into one. A WHERE clause, as the query parser
`soql-parser-js` builds it, is a right-leaning chain of nodes. Each node holds:

- a condition (`left`), with optional counters of the `(`s before it and the `)`s after it;
- an optional connective (`AND`/`OR`) to the next node;
- the next node (`right`).

The project models three things:

- `wrapWhereClauseInParenthesis` (src/index.ts). It clones a chain. It then adds one `(` to the head condition and one `)` to the condition of the last node.
- `mergeWhereClauses` (src/index.ts). With an input missing it returns the other one. Otherwise it wraps both chains and hangs the second copy after the last node of the first copy, joined by the requested connective.
- The older recursive `mergeWhereClauses` (index.ts). It splices the chains flat. It sets every connective of the first chain to the requested one and adds no parentheses.

The modules:

- `Wrappers`: `Option`.
- `WhereClauses`: the data model. A chain is the datatype `Clause`. A condition is `Cond`: its two parenthesis counters plus an opaque payload, which holds the field, the operator, the value, a negation or a sub-query. The module also defines two views of a chain used to state results:
  - `Links`: its nodes in order, without successors.
  - `Tokens`: the text the chain serializes to, as `(`, `)`, condition and connective tokens, with `Depth` and `Balanced` over them.
- `ParenMerge`: what src/index.ts computes, as functions on chain values, and the properties the repository's tests check. Among them, a merge serializes as `(A) op (B)`, and the added connective is the only one outside every parenthesis.
- `MergeHeap`: src/index.ts as it runs. Nodes are objects of a class `Node`, and a chain is described by a ghost spine, the sequence of its nodes. The deep copy (`DeepCopy`) and the `while (current.right)` walk (`LastNode`) are methods. The in-place counter increments are statements of `WrapInParenthesis`, and the re-linking is a pair of statements of `JoinWrapped`. What is proved:
  - `DeepCopy` gives new nodes holding the same conditions and connectives, node by node.
  - `LastNode` stops at the node whose `right` is null.
  - `WrapInParenthesis` leaves a copy whose node list is `ParenMerge.WrapLinks` of the input's, and whose chain value is `ParenMerge.Wrapped` of the input's.
  - `JoinWrapped` leaves a node list that is the two wrapped lists joined by `op`.
  - `MergeWhereClauses` gives the chain value `ParenMerge.Merge` computes and leaves both input chains as they were.
- `LegacyMerge`: the recursive splice of index.ts, as written, with what it does to connectives and missing inputs.

## Model

| member | source | states |
|---|---|---|
| WhereClauses.LinksRoundTrip | src/index.ts:15-18 | a chain can be read back from its node list, the nodes in the order a walk along `right` visits them, so two chains with the same node list are equal |
| WhereClauses.FromLinksRoundTrip | src/index.ts:15-18 | every non-empty list of nodes is the node list of some chain; together with `LinksRoundTrip`, of exactly one |
| ParenMerge.OpenOnce | src/index.ts:14 | the head condition gets exactly one more `(`, an absent counter counting as 0, and nothing else of the condition changes |
| ParenMerge.CloseOnce | src/index.ts:19 | the last condition gets exactly one more `)`, an absent counter counting as 0, and nothing else of the condition changes |
| ParenMerge.CloseTail | src/index.ts:15-19 | closing the last node keeps the chain's length |
| ParenMerge.CloseTailLinks | src/index.ts:15-19 | the walk to the node without `right` and its `)` increment change the last node's condition and no other node |
| ParenMerge.CloseTailTokens | src/index.ts:19 | the extra `)` appears at the very end of the chain's text |
| ParenMerge.Wrapped | src/index.ts:12-21 | the wrapped copy has as many nodes as the input |
| ParenMerge.WrappedLinks | src/index.ts:12-21 | wrapping adds `(` to the first node and `)` to the last; for a one-node chain both land on the same node |
| ParenMerge.WrappedChangesOnlyEnds | src/index.ts:13-19 | the copy keeps the length, every connective, every payload and every other counter; the head's `(` count and the last node's `)` count each grow by exactly one, on top of existing ones |
| ParenMerge.TokensWrapped | src/index.ts:12-21 | a wrapped chain's text is `(` + the chain's text + `)`, however the chain is nested |
| ParenMerge.Splice | src/index.ts:44-45 | attaching the second chain after the first one's last node gives a chain of the summed length |
| ParenMerge.SpliceLinks | src/index.ts:44-45 | the spliced chain's nodes are the first chain's, with `op` on its last node, then the second chain's, unchanged |
| ParenMerge.SpliceTokens | src/index.ts:44-45 | the spliced chain's text is the first text, the connective `op`, then the second text |
| ParenMerge.Merge | src/index.ts:34-48 | the result is absent exactly when both inputs are; with one input absent it is the other input unchanged; with both present its length is the sum of theirs |
| ParenMerge.WrapOfLinks | src/index.ts:12-21 | wrapping computed on node lists and read back as a chain gives the wrapped chain |
| ParenMerge.MergeLinks | src/index.ts:41-47 | the merged chain's nodes are the wrapped first chain's, with `op` on its last node, followed by the wrapped second chain's |
| ParenMerge.MergeOfLinks | src/index.ts:41-47 | the same merge computed on node lists and read back as a chain gives the merged chain |
| ParenMerge.MergeKeepsJoins | src/index.ts:41-47 | every connective and every payload of both inputs is kept in order; the only new connective is `op`, on the first input's last node |
| ParenMerge.MergeTokens | src/index.ts:41-47 | the merged chain serializes as `(A) op (B)` |
| ParenMerge.MergeParenCounts | src/index.ts:41-45 | a merge adds exactly one `(` and one `)` per input |
| ParenMerge.MergeEnclosesInputs | src/index.ts:41-47 | when both inputs are balanced, the merge is balanced and `op` is its only connective outside every parenthesis, so no connective of an input binds across the join |
| ParenMerge.MergeWellFormed | src/index.ts:41-47 | a merge of chains where a node has a connective exactly when it has a successor has that shape too |
| ParenMerge.MergeTwoConditions | src/index.test.ts:69-97 | two bare conditions merge into the chain the parser builds for `(c1) op (c2)` |
| MergeHeap.Node.constructor | src/index.ts:13 | a new node holds the given condition, connective and successor |
| MergeHeap.DeepCopy | src/index.ts:13 | the clone is a chain of new nodes, as long as the input, with the same conditions and connectives node by node |
| MergeHeap.LastNode | src/index.ts:15-18 | the walk ends at the chain's last node, the one whose `right` is null |
| MergeHeap.WrapInParenthesis | src/index.ts:12-21 | `beginClause` heads a chain of new nodes whose node list is `WrapLinks` of the input's and whose value is `Wrapped` of the input's value; `endClause` is that chain's last node; the input is not written |
| MergeHeap.ChainsJoined | src/index.ts:44-45 | pointing the first copy's last node at the second copy's head, with connective `op`, makes one chain whose nodes are both lists, joined at that node |
| MergeHeap.JoinWrapped | src/index.ts:41-47 | the merged chain is made of new nodes and its value is the wrapped first input, joined by `op`, followed by the wrapped second input |
| MergeHeap.MergeWhereClauses | src/index.ts:34-48 | the result chain's value is `ParenMerge.Merge` of the inputs' values; with an input absent it is the other input's own head node; both input chains read the same afterwards |
| LegacyMerge.MergeWhereClauses | index.ts:4-18 | the result is the placeholder exactly when an input is missing; otherwise it starts with a condition equal to the first input's head condition, and with connective `op`, and its length is the sum of the inputs' lengths |
| LegacyMerge.Splice | index.ts:13-17 | the rebuilt chain starts with the first chain's head condition and connective `op`, and its length is the sum of the lengths |
| LegacyMerge.LegacyLinks | index.ts:13-17 | the result lists the first chain's conditions, each now followed by `op`, then the second chain's nodes unchanged |
| LegacyMerge.LegacyParenCounts | index.ts:13-17 | no `(` or `)` is added: the counts are the inputs' summed |
| LegacyMerge.LegacyWellFormed | index.ts:13-17 | the splice of two well-formed chains is well formed |
| LegacyMerge.LegacyTwoConditions | index.test.ts:8-15 | two single conditions merge into the flat chain `c1 op c2` |
| LegacyMerge.LegacyOverwritesJoins | index.ts:15-16 | merging `f1 AND f3` with `f2` under OR gives `f1 OR f3 OR f2`: the first chain's own connective is lost |
| LegacyMerge.LegacyDropsPresentInput | index.ts:9-11 | with only one input present the result is the placeholder, not that input |

## Left out

- `soql-parser-js` (`parseQuery`, `composeQuery`, `formatQuery`) and `sql-formatter` are not part of this model. `WhereClauses.Tokens` stands in for the composer: a condition's text is its `(`s, one opaque token and its `)`s.
- A condition's contents (field, comparison, value, `NOT`, `IN (SELECT ...)` sub-queries) are an opaque payload, because the merge never reads them. Parentheses inside a sub-query are therefore not tokens of the text.
- The `JSON.parse(JSON.stringify(...))` clone is modelled as a deep copy into new nodes. Conditions are values, so each copy holds its own condition. Serialization itself, and fields it would drop, are not modelled.
- Every node of the model has a condition, and a `NOT` is folded into a condition's payload. A chain whose head had no condition would make src/index.ts:14 throw, and one whose last node had none would make line 19 throw. A middle node without one passes through the merge unchanged. A `NOT` connective on a node is not modelled: `LogicalOp` is only `And` or `Or`.
- Sharing between objects is not modelled in the value models. The legacy merge reuses each condition object of the first input and the nodes of the second input by reference. `LegacyMerge` shows only that they come out equal.
- The default argument `operator = "AND"` is not modelled: every model operation takes the connective explicitly.
- The `main` functions of src/main.ts and index.ts (console output, error handling around the formatter) are I/O and are not part of this model. The same goes for eslint.config.mjs and the test harness mechanics (`structuredClone`, vitest matchers).
- The legacy guards `if (!where1)` and `if (!where2)` (index.ts:10-11) cannot fire after the guard of line 9. `LegacyMerge.MergeWhereClauses` leaves them out, and its first `ensures` shows that both-present is the only case that gets past line 9.
- The heap model describes each chain by a ghost spine, the list of its nodes, passed alongside the head. The source has no such list.
- The legacy function is superseded by src/index.ts but is modelled as written, including the behaviour recorded under Findings.

## Findings

| source | as written | input that shows it | evidently intended | confidence | as-written member | corrected member |
|---|---|---|---|---|---|---|
| index.ts:15-16 | every connective of the first chain is replaced by the merge connective | `f1 AND f3` merged with `f2` under OR reads `f1 OR f3 OR f2` | the first chain keeps its own connectives and the inputs are grouped, `(f1 AND f3) OR (f2)` | not executed | LegacyMerge.LegacyOverwritesJoins | ParenMerge.MergeKeepsJoins |
| index.ts:9-11 | the guard `!(where1 && where2)` returns the placeholder `{ left: { operator: '=' } }` whenever one input is missing, which makes lines 10-11 unreachable | a present `where1` and an absent `where2` give the placeholder instead of `where1` | with one input missing, return the other input | not executed | LegacyMerge.LegacyDropsPresentInput | ParenMerge.Merge |
