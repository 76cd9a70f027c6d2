/**
 * src/index.ts as it runs: WHERE-clause nodes are heap objects, the wrap
 * clones a chain, walks a pointer to its last node and bumps counters in
 * place, and the merge re-links the first clone's last node. `DeepCopy`
 * copies node by node and `LastNode` finds the node without `right`;
 * `WrapInParenthesis` is proved to leave the node list `WrapLinks` and the
 * value `Wrapped` of ParenMerge, `JoinWrapped` the two wrapped node lists
 * joined, and `MergeWhereClauses` the value `Merge` of ParenMerge.
 *
 * A chain in the heap is described by its spine: the sequence of its nodes
 * from the head, each node's `right` being the next one and the last
 * node's `right` being null.
 */
module MergeHeap {
  import opened Wrappers
  import opened WhereClauses
  import opened ParenMerge

  /** One node of a WHERE-clause chain. */
  class Node {
    var left: Cond
    var op: Option<LogicalOp>
    var right: Node?

    constructor (left: Cond, op: Option<LogicalOp>, right: Node?)
      ensures this.left == left && this.op == op && this.right == right
    {
      this.left := left;
      this.op := op;
      this.right := right;
    }
  }

  /** `spine` lists, in order and without repetition, the nodes reachable from `spine[0]`. */
  ghost predicate IsChain(spine: seq<Node>)
    reads spine
  {
    |spine| > 0 &&
    (forall i :: 0 <= i < |spine| - 1 ==> spine[i].right == spine[i + 1]) &&
    spine[|spine| - 1].right == null &&
    (forall i, j :: 0 <= i < j < |spine| ==> spine[i] != spine[j])
  }

  /** The nodes of the chain as values. */
  ghost function LinksOf(spine: seq<Node>): (s: seq<Link>)
    reads spine
  {
    seq(|spine|, i requires 0 <= i < |spine| reads spine => Link(spine[i].left, spine[i].op))
  }

  /** The successor of a node of a chain: the next node of the spine, or null after the last. */
  lemma ChainNext(spine: seq<Node>, k: nat)
    requires IsChain(spine) && k < |spine|
    ensures spine[k].right == if k + 1 < |spine| then spine[k + 1] else null
  {
  }

  /** The nodes after the head of a chain form a chain. */
  lemma ChainRest(spine: seq<Node>)
    requires IsChain(spine) && |spine| > 1
    ensures IsChain(spine[1..]) && spine[0].right == spine[1]
    ensures LinksOf(spine) == [Link(spine[0].left, spine[0].op)] + LinksOf(spine[1..])
  {
  }

  /** A node not in a chain, pointing at its head, extends it. */
  lemma ChainCons(n: Node, spine: seq<Node>)
    requires IsChain(spine) && n.right == spine[0] && n !in spine
    ensures IsChain([n] + spine)
    ensures LinksOf([n] + spine) == [Link(n.left, n.op)] + LinksOf(spine)
  {
  }

  /**
   * Writing the condition of one node of a chain leaves a chain whose only
   * changed entry is that node's. (`k` is declared `new` only to keep
   * Dafny 4.11's prover from failing on labelled calls of this lemma.)
   */
  twostate lemma LeftWritten(spine: seq<Node>, new k: nat)
    requires old(IsChain(spine)) && k < |spine|
    requires forall i :: 0 <= i < |spine| && spine[i] != spine[k] ==>
      spine[i].left == old(spine[i].left) && spine[i].op == old(spine[i].op) && spine[i].right == old(spine[i].right)
    requires spine[k].op == old(spine[k].op) && spine[k].right == old(spine[k].right)
    ensures IsChain(spine)
    ensures LinksOf(spine) == old(LinksOf(spine))[k := Link(spine[k].left, spine[k].op)]
  {
  }

  /**
   * Pointing the last node of one chain at the head of a disjoint chain
   * `s2`, with connective `op`, makes a single chain of the two. (`s2` and
   * `op` are declared `new` only to keep Dafny 4.11's prover from failing
   * on labelled calls of this lemma.)
   */
  twostate lemma ChainsJoined(s1: seq<Node>, new s2: seq<Node>, new op: LogicalOp)
    requires old(IsChain(s1)) && IsChain(s2)
    requires forall i, j :: 0 <= i < |s1| && 0 <= j < |s2| ==> s1[i] != s2[j]
    requires s1[|s1| - 1].left == old(s1[|s1| - 1].left)
    requires s1[|s1| - 1].op == Some(op) && s1[|s1| - 1].right == s2[0]
    requires forall i :: 0 <= i < |s1| - 1 ==> unchanged(s1[i])
    ensures IsChain(s1 + s2)
    ensures LinksOf(s1 + s2) == JoinLast(old(LinksOf(s1)), op) + LinksOf(s2)
  {
    var s := s1 + s2;
    forall i | 0 <= i < |s| - 1
      ensures s[i].right == s[i + 1]
    {
      if i < |s1| - 1 {
        assert s[i] == s1[i] && s[i + 1] == s1[i + 1];
      } else if i >= |s1| {
        assert s[i] == s2[i - |s1|] && s[i + 1] == s2[i + 1 - |s1|];
      }
    }
  }

  /** A chain none of whose nodes was written reads the same. */
  twostate lemma Untouched(spine: seq<Node>)
    requires old(IsChain(spine))
    requires forall i :: 0 <= i < |spine| ==> unchanged(spine[i])
    ensures IsChain(spine) && LinksOf(spine) == old(LinksOf(spine))
  {
  }

  /** The clause a possibly absent chain stands for. */
  ghost function ValueOf(head: Node?, spine: seq<Node>): Option<Clause>
    reads spine
    requires head != null ==> IsChain(spine)
  {
    if head == null then None else Some(FromLinks(LinksOf(spine)))
  }

  /** Every node of `spine` was allocated after the method call began. */
  twostate predicate AllFresh(new spine: seq<Node>)
  {
    forall i :: 0 <= i < |spine| ==> fresh(spine[i])
  }

  /**
   * The `JSON.parse(JSON.stringify(clause))` of src/index.ts:13: a copy
   * made of new nodes, holding the same conditions and connectives.
   */
  method DeepCopy(head: Node, ghost spine: seq<Node>) returns (copy: Node, ghost copySpine: seq<Node>)
    requires IsChain(spine) && spine[0] == head
    ensures IsChain(copySpine) && copySpine[0] == copy
    ensures AllFresh(copySpine)
    ensures |copySpine| == |spine|
    ensures forall i :: 0 <= i < |spine| ==> copySpine[i].left == spine[i].left && copySpine[i].op == spine[i].op
    decreases |spine|
  {
    if head.right == null {
      ChainNext(spine, 0);
      copy := new Node(head.left, head.op, null);
      copySpine := [copy];
    } else {
      ChainRest(spine);
      var rest, restSpine := DeepCopy(head.right, spine[1..]);
      copy := new Node(head.left, head.op, rest);
      ChainCons(copy, restSpine);
      copySpine := [copy] + restSpine;
    }
  }

  /**
   * The walk `while (current.right) current = current.right` of
   * src/index.ts:15-18: from the head to the node without `right`.
   */
  method LastNode(head: Node, ghost spine: seq<Node>) returns (last: Node)
    requires IsChain(spine) && spine[0] == head
    ensures last == spine[|spine| - 1] && last.right == null
  {
    var current := head;
    ghost var k := 0;
    while current.right != null
      invariant 0 <= k < |spine| && current == spine[k]
      decreases |spine| - k
    {
      current := current.right;
      k := k + 1;
    }
    ChainNext(spine, k);
    last := current;
  }

  /**
   * `wrapWhereClauseInParenthesis` (src/index.ts:12-21): a fresh copy of the
   * chain with one more `(` on its head and one more `)` on its last node,
   * and that last node (`endClause`). The input chain is not written.
   */
  method WrapInParenthesis(clause: Node, ghost spine: seq<Node>)
    returns (beginClause: Node, endClause: Node, ghost copy: seq<Node>)
    requires IsChain(spine) && spine[0] == clause
    ensures IsChain(copy) && copy[0] == beginClause && copy[|copy| - 1] == endClause
    ensures endClause.right == null
    ensures AllFresh(copy)
    ensures LinksOf(copy) == WrapLinks(old(LinksOf(spine)))
    ensures FromLinks(LinksOf(copy)) == Wrapped(FromLinks(old(LinksOf(spine))))
  {
    var clone;
    clone, copy := DeepCopy(clause, spine);
    label Cloned:
    clone.left := OpenOnce(clone.left);
    LeftWritten@Cloned(copy, 0);
    var current := LastNode(clone, copy);
    label Walked:
    current.left := CloseOnce(current.left);
    LeftWritten@Walked(copy, |copy| - 1);
    WrapOfLinks(old(LinksOf(spine)));
    beginClause, endClause := clone, current;
  }

  /**
   * `mergeWhereClauses` (src/index.ts:34-48). With an input absent, the other
   * input itself, not a copy (line 39); otherwise a chain of fresh nodes
   * reading `(where1) op (where2)`. No pre-existing node is written, so both
   * input chains read the same afterwards.
   */
  method MergeWhereClauses(where1: Node?, where2: Node?, op: LogicalOp,
                           ghost spine1: seq<Node>, ghost spine2: seq<Node>)
    returns (merged: Node?, ghost spine: seq<Node>)
    requires where1 != null ==> IsChain(spine1) && spine1[0] == where1
    requires where2 != null ==> IsChain(spine2) && spine2[0] == where2
    ensures where2 == null ==> merged == where1 && (where1 != null ==> spine == spine1)
    ensures where1 == null ==> merged == where2 && (where2 != null ==> spine == spine2)
    ensures where1 != null && where2 != null ==>
      merged != null && IsChain(spine) && spine[0] == merged && AllFresh(spine)
    ensures ValueOf(merged, spine) == Merge(ValueOf(where1, spine1), ValueOf(where2, spine2), op)
    ensures ValueOf(where1, spine1) == old(ValueOf(where1, spine1))
    ensures ValueOf(where2, spine2) == old(ValueOf(where2, spine2))
  {
    if where1 == null || where2 == null {
      merged := if where1 != null then where1 else where2;
      spine := if where1 != null then spine1 else spine2;
      return;
    }
    merged, spine := JoinWrapped(where1, where2, op, spine1, spine2);
    Untouched(spine1);
    Untouched(spine2);
    MergeOfLinks(LinksOf(spine1), LinksOf(spine2), op);
  }

  /**
   * Lines 41-47 of src/index.ts: wrap both chains, then point the first
   * copy's last node at the second copy's head with connective `op`.
   */
  method JoinWrapped(where1: Node, where2: Node, op: LogicalOp,
                     ghost spine1: seq<Node>, ghost spine2: seq<Node>)
    returns (merged: Node, ghost spine: seq<Node>)
    requires IsChain(spine1) && spine1[0] == where1
    requires IsChain(spine2) && spine2[0] == where2
    ensures IsChain(spine) && spine[0] == merged && AllFresh(spine)
    ensures LinksOf(spine) == JoinLast(WrapLinks(old(LinksOf(spine1))), op) + WrapLinks(old(LinksOf(spine2)))
  {
    var wrappedWhere1, endClause1, copy1 := WrapInParenthesis(where1, spine1);
    var wrappedWhere2, _, copy2 := WrapInParenthesis(where2, spine2);

    label Wrapped:
    endClause1.op := Some(op);
    endClause1.right := wrappedWhere2;

    Untouched@Wrapped(copy2);
    ChainsJoined@Wrapped(copy1, copy2, op);
    merged, spine := wrappedWhere1, copy1 + copy2;
  }
}
