/**
 * What `wrapWhereClauseInParenthesis` and `mergeWhereClauses` of
 * src/index.ts compute, stated on chain values, and the properties the
 * repository's tests check of them. The class-based model in merge_heap.dfy
 * is proved to compute exactly these values.
 */
module ParenMerge {
  import opened Wrappers
  import opened WhereClauses

  /** The condition with one more `(` in front; existing `(`s are kept (src/index.ts:14). */
  function OpenOnce(cond: Cond): (r: Cond)
    ensures Count(r.openParen) == Count(cond.openParen) + 1
    ensures r.closeParen == cond.closeParen && r.payload == cond.payload
  {
    cond.(openParen := Some(Count(cond.openParen) + 1))
  }

  /** The condition with one more `)` after it; existing `)`s are kept (src/index.ts:19). */
  function CloseOnce(cond: Cond): (r: Cond)
    ensures Count(r.closeParen) == Count(cond.closeParen) + 1
    ensures r.openParen == cond.openParen && r.payload == cond.payload
  {
    cond.(closeParen := Some(Count(cond.closeParen) + 1))
  }

  /** The chain with one more `)` on its last node, the one without `right` (src/index.ts:15-19). */
  function CloseTail(c: Clause): (r: Clause)
    ensures Length(r) == Length(c)
  {
    if c.right.None? then c.(left := CloseOnce(c.left))
    else c.(right := Some(CloseTail(c.right.value)))
  }

  /**
   * The `beginClause` of `wrapWhereClauseInParenthesis`: a copy of the chain
   * whose head has one more `(` and whose last node has one more `)`
   * (src/index.ts:12-21).
   */
  function Wrapped(c: Clause): (r: Clause)
    ensures Length(r) == Length(c)
  {
    CloseTail(c.(left := OpenOnce(c.left)))
  }

  /** The list of nodes with one more `(` on the first. */
  function OpenFirst(s: seq<Link>): (r: seq<Link>)
    requires |s| > 0
  {
    s[0 := Link(OpenOnce(s[0].left), s[0].op)]
  }

  /** The list of nodes with one more `)` on the last. */
  function CloseLast(s: seq<Link>): (r: seq<Link>)
    requires |s| > 0
  {
    s[|s| - 1 := Link(CloseOnce(s[|s| - 1].left), s[|s| - 1].op)]
  }

  /**
   * Wrapping, stated on the list of nodes: first the head's `(`, then the
   * last node's `)`. For a one-node chain both land on the same node.
   */
  function WrapLinks(s: seq<Link>): (r: seq<Link>)
    requires |s| > 0
  {
    CloseLast(OpenFirst(s))
  }

  /** The list of nodes whose last node gets the connective `op`. */
  function JoinLast(s: seq<Link>, op: LogicalOp): (r: seq<Link>)
    requires |s| > 0
  {
    s[|s| - 1 := Link(s[|s| - 1].left, Some(op))]
  }

  lemma {:induction false} CloseTailLinks(c: Clause)
    ensures Links(CloseTail(c)) == CloseLast(Links(c))
    decreases c
  {
    if c.right.Some? {
      CloseTailLinks(c.right.value);
      assert Links(CloseTail(c)) == [Link(c.left, c.op)] + Links(CloseTail(c.right.value));
      assert Links(c) == [Link(c.left, c.op)] + Links(c.right.value);
    }
  }

  /** Replacing the head's condition changes the first entry of the list of nodes only. */
  lemma {:induction false} HeadLinks(c: Clause, cond: Cond)
    ensures Links(c.(left := cond)) == Links(c)[0 := Link(cond, c.op)]
  {
    if c.right.Some? {
      assert Links(c.(left := cond)) == [Link(cond, c.op)] + Links(c.right.value);
      assert Links(c) == [Link(c.left, c.op)] + Links(c.right.value);
    }
  }

  /** Wrapping touches the head's `(` and the last node's `)` and nothing else. */
  lemma {:induction false} WrappedLinks(c: Clause)
    ensures Links(Wrapped(c)) == WrapLinks(Links(c))
  {
    var withOpen := c.(left := OpenOnce(c.left));
    HeadLinks(c, OpenOnce(c.left));
    CloseTailLinks(withOpen);
  }

  /**
   * Wrapping keeps the length, every connective and every condition's
   * content; the head gets exactly one more `(` and the last node exactly
   * one more `)`, on top of any it already had.
   */
  lemma {:induction false} WrappedChangesOnlyEnds(c: Clause)
    ensures var s, r := Links(c), Links(Wrapped(c));
      |r| == |s| &&
      Count(r[0].left.openParen) == Count(s[0].left.openParen) + 1 &&
      Count(r[|s| - 1].left.closeParen) == Count(s[|s| - 1].left.closeParen) + 1 &&
      (forall i :: 0 <= i < |s| ==> r[i].op == s[i].op && r[i].left.payload == s[i].left.payload) &&
      (forall i :: 0 < i < |s| ==> r[i].left.openParen == s[i].left.openParen) &&
      (forall i :: 0 <= i < |s| - 1 ==> r[i].left.closeParen == s[i].left.closeParen)
  {
    WrappedLinks(c);
    WrapLinksChangesOnlyEnds(Links(c));
  }

  /** `WrapLinks` touches only the first node's `(` and the last node's `)`. */
  lemma WrapLinksChangesOnlyEnds(s: seq<Link>)
    requires |s| > 0
    ensures var r := WrapLinks(s);
      |r| == |s| &&
      Count(r[0].left.openParen) == Count(s[0].left.openParen) + 1 &&
      Count(r[|s| - 1].left.closeParen) == Count(s[|s| - 1].left.closeParen) + 1 &&
      (forall i :: 0 <= i < |s| ==> r[i].op == s[i].op && r[i].left.payload == s[i].left.payload) &&
      (forall i :: 0 < i < |s| ==> r[i].left.openParen == s[i].left.openParen) &&
      (forall i :: 0 <= i < |s| - 1 ==> r[i].left.closeParen == s[i].left.closeParen)
  {
  }

  lemma {:induction false} CloseTailTokens(c: Clause)
    ensures Tokens(CloseTail(c)) == Tokens(c) + [Close]
    decreases c
  {
    if c.right.None? {
      RepeatSnoc(Close, Count(c.left.closeParen));
    } else {
      CloseTailTokens(c.right.value);
    }
  }

  /** A wrapped chain serializes as `(` + the chain's text + `)`, however nested the chain is. */
  lemma {:induction false} TokensWrapped(c: Clause)
    ensures Tokens(Wrapped(c)) == [Open] + Tokens(c) + [Close]
  {
    CloseTailTokens(c.(left := OpenOnce(c.left)));
  }

  /**
   * `d` attached after the last node of `c`, joined by `op`: the two
   * assignments to `endClause1` (src/index.ts:44-45).
   */
  function Splice(c: Clause, op: LogicalOp, d: Clause): (r: Clause)
    ensures Length(r) == Length(c) + Length(d)
  {
    if c.right.None? then c.(op := Some(op), right := Some(d))
    else c.(right := Some(Splice(c.right.value, op, d)))
  }

  /** Splicing keeps both lists of nodes; only the join node's connective changes. */
  lemma {:induction false} SpliceLinks(c: Clause, op: LogicalOp, d: Clause)
    ensures Links(Splice(c, op, d)) == JoinLast(Links(c), op) + Links(d)
    decreases c
  {
    if c.right.Some? {
      SpliceLinks(c.right.value, op, d);
      SpliceLinksStep(c, op, d);
    } else {
      LinksCons(c.left, Some(op), d);
      assert Links(c) == [Link(c.left, c.op)];
    }
  }

  /** The inductive step of `SpliceLinks`: from the successor to the node itself. */
  lemma {:induction false} SpliceLinksStep(c: Clause, op: LogicalOp, d: Clause)
    requires c.right.Some?
    requires Links(Splice(c.right.value, op, d)) == JoinLast(Links(c.right.value), op) + Links(d)
    ensures Links(Splice(c, op, d)) == JoinLast(Links(c), op) + Links(d)
  {
    var head, rest := Link(c.left, c.op), c.right.value;
    var spliced := Splice(rest, op, d);
    assert c == Clause(c.left, c.op, Some(rest));
    assert Splice(c, op, d) == Clause(c.left, c.op, Some(spliced));
    LinksCons(c.left, c.op, rest);
    LinksCons(c.left, c.op, spliced);
    JoinLastCons(head, Links(rest), op);
    ConcatAssoc([head], JoinLast(Links(rest), op), Links(d));
  }

  /** Setting the last connective of a list with a head leaves the head alone. */
  lemma JoinLastCons(head: Link, s: seq<Link>, op: LogicalOp)
    requires |s| > 0
    ensures JoinLast([head] + s, op) == [head] + JoinLast(s, op)
  {
  }

  /** A splice serializes as the first text, the connective, then the second text. */
  lemma {:induction false} SpliceTokens(c: Clause, op: LogicalOp, d: Clause)
    ensures Tokens(Splice(c, op, d)) == Tokens(c) + [Join(Some(op))] + Tokens(d)
    decreases c
  {
    if c.right.Some? {
      SpliceTokens(c.right.value, op, d);
    }
  }

  /**
   * `mergeWhereClauses` (src/index.ts:34-48): with an input absent, the
   * other one as it is (possibly absent too); otherwise both inputs
   * wrapped and spliced with `op`.
   */
  function Merge(where1: Option<Clause>, where2: Option<Clause>, op: LogicalOp): (r: Option<Clause>)
    ensures r.None? <==> where1.None? && where2.None?
    ensures where2.None? ==> r == where1
    ensures where1.None? ==> r == where2
    ensures where1.Some? && where2.Some? ==>
      Length(r.value) == Length(where1.value) + Length(where2.value)
  {
    if where1.None? || where2.None? then (if where1.Some? then where1 else where2)
    else Some(Splice(Wrapped(where1.value), op, Wrapped(where2.value)))
  }

  /**
   * Wrapping, stated on lists of nodes: the chain whose nodes are the
   * wrapped list is the wrapped chain of the list.
   */
  lemma WrapOfLinks(s: seq<Link>)
    requires |s| > 0
    ensures FromLinks(WrapLinks(s)) == Wrapped(FromLinks(s))
  {
    var c := FromLinks(s);
    FromLinksRoundTrip(s);
    WrappedLinks(c);
    LinksRoundTrip(Wrapped(c));
  }

  /**
   * Merging, stated on lists of nodes: the chain whose nodes are the wrapped
   * first list, joined by `op`, then the wrapped second list, is the merge of
   * the chains of the two lists.
   */
  lemma {:induction false} MergeOfLinks(s1: seq<Link>, s2: seq<Link>, op: LogicalOp)
    requires |s1| > 0 && |s2| > 0
    ensures FromLinks(JoinLast(WrapLinks(s1), op) + WrapLinks(s2))
         == Merge(Some(FromLinks(s1)), Some(FromLinks(s2)), op).value
  {
    var a, b := FromLinks(s1), FromLinks(s2);
    FromLinksRoundTrip(s1);
    FromLinksRoundTrip(s2);
    MergeLinks(a, b, op);
    LinksRoundTrip(Merge(Some(a), Some(b), op).value);
  }

  /**
   * The merged chain's nodes are the wrapped first chain's, with `op` on
   * its last node, followed by the wrapped second chain's.
   */
  lemma {:induction false} MergeLinks(a: Clause, b: Clause, op: LogicalOp)
    ensures Links(Merge(Some(a), Some(b), op).value) == JoinLast(WrapLinks(Links(a)), op) + WrapLinks(Links(b))
  {
    SpliceLinks(Wrapped(a), op, Wrapped(b));
    WrappedLinks(a);
    WrappedLinks(b);
  }

  /**
   * Merging keeps every connective of both inputs and every condition's
   * content, in order; the only new connective is `op`, on the first
   * input's last node.
   */
  lemma {:induction false} MergeKeepsJoins(a: Clause, b: Clause, op: LogicalOp)
    ensures KeepsJoins(Links(Merge(Some(a), Some(b), op).value), Links(a), Links(b), op)
  {
    MergeLinks(a, b, op);
    JoinedWrapsKeepJoins(Links(a), Links(b), op);
  }

  /**
   * `r` lists the nodes of `sa` then those of `sb`, with the same conditions'
   * content and the same connectives, except the last node of `sa`, which
   * now carries `op`.
   */
  predicate KeepsJoins(r: seq<Link>, sa: seq<Link>, sb: seq<Link>, op: LogicalOp) {
    |sa| > 0 &&
    |r| == |sa| + |sb| &&
    r[|sa| - 1].op == Some(op) &&
    (forall i :: 0 <= i < |sa| - 1 ==> r[i].op == sa[i].op) &&
    (forall i :: 0 <= i < |sa| ==> r[i].left.payload == sa[i].left.payload) &&
    (forall j :: 0 <= j < |sb| ==> r[|sa| + j].op == sb[j].op && r[|sa| + j].left.payload == sb[j].left.payload)
  }

  /** `MergeKeepsJoins` stated on lists of nodes. */
  lemma JoinedWrapsKeepJoins(sa: seq<Link>, sb: seq<Link>, op: LogicalOp)
    requires |sa| > 0 && |sb| > 0
    ensures KeepsJoins(JoinLast(WrapLinks(sa), op) + WrapLinks(sb), sa, sb, op)
  {
    var wa, wb := WrapLinks(sa), WrapLinks(sb);
    WrapLinksChangesOnlyEnds(sa);
    WrapLinksChangesOnlyEnds(sb);
    var r := JoinLast(wa, op) + wb;
    forall j | 0 <= j < |sb|
      ensures r[|sa| + j] == wb[j]
    {
    }
  }

  /** Merging two present chains serializes as `(A) op (B)`. */
  lemma {:induction false} MergeTokens(a: Clause, b: Clause, op: LogicalOp)
    ensures Tokens(Merge(Some(a), Some(b), op).value)
         == [Open] + Tokens(a) + [Close, Join(Some(op)), Open] + Tokens(b) + [Close]
  {
    var wa, wb := Wrapped(a), Wrapped(b);
    SpliceTokens(wa, op, wb);
    TokensWrapped(a);
    TokensWrapped(b);
    Regroup(Tokens(a), Join(Some(op)), Tokens(b));
  }

  lemma Regroup(x: seq<Token>, j: Token, y: seq<Token>)
    ensures ([Open] + x + [Close]) + [j] + ([Open] + y + [Close]) == [Open] + x + [Close, j, Open] + y + [Close]
  {
  }

  /** Merging adds exactly one `(` and one `)` per input, so it keeps the balance. */
  lemma {:induction false} MergeParenCounts(a: Clause, b: Clause, op: LogicalOp)
    ensures Opens(Merge(Some(a), Some(b), op).value) == Opens(a) + Opens(b) + 2
    ensures Closes(Merge(Some(a), Some(b), op).value) == Closes(a) + Closes(b) + 2
  {
    MergeTokens(a, b, op);
    EnclosedCounts(Tokens(a), Join(Some(op)), Tokens(b));
  }

  lemma EnclosedCounts(x: seq<Token>, j: Token, y: seq<Token>)
    requires j.Join?
    ensures var m := multiset([Open] + x + [Close, j, Open] + y + [Close]);
      m[Open] == multiset(x)[Open] + multiset(y)[Open] + 2 &&
      m[Close] == multiset(x)[Close] + multiset(y)[Close] + 2
  {
    var m := multiset([Open] + x + [Close, j, Open] + y + [Close]);
    assert m == multiset{Open} + multiset(x) + multiset{Close, j, Open} + multiset(y) + multiset{Close};
  }

  /**
   * Text `x` and `y`, each balanced, put in the form `(x) j (y)`: the result
   * is balanced, and `j` is its only token outside every parenthesis apart
   * from the two `(`s that open the scopes.
   */
  lemma EnclosedScopes(x: seq<Token>, j: Token, y: seq<Token>)
    requires Balanced(x) && Balanced(y) && j.Join?
    ensures var t := [Open] + x + [Close, j, Open] + y + [Close];
      Balanced(t) &&
      forall k :: 0 <= k < |t| && Depth(t[..k]) == 0 ==> k == 0 || k == |x| + 2 || k == |x| + 3
  {
    var t := [Open] + x + [Close, j, Open] + y + [Close];
    forall k | 0 <= k <= |t|
      ensures Depth(t[..k]) >= 0
      ensures k != 0 && k != |x| + 2 && k != |x| + 3 && k != |t| ==> Depth(t[..k]) >= 1
    {
      EnclosedPrefix(x, j, y, k);
    }
    EnclosedPrefix(x, j, y, |t|);
    assert t[..|t|] == t;
  }

  /** The depth of the first `k` tokens of `(x) j (y)`. */
  lemma EnclosedPrefix(x: seq<Token>, j: Token, y: seq<Token>, k: nat)
    requires Balanced(x) && Balanced(y) && j.Join?
    requires k <= |x| + |y| + 5
    ensures var t := [Open] + x + [Close, j, Open] + y + [Close];
      Depth(t[..k]) >= 0 &&
      (k == |t| ==> Depth(t[..k]) == 0) &&
      (k != 0 && k != |x| + 2 && k != |x| + 3 && k != |t| ==> Depth(t[..k]) >= 1)
  {
    var head := [Open] + x + [Close, j, Open];
    var body := head + y;
    HeadPrefix(x, j, if k <= |head| then k else |head|);
    PrefixDepth(body, [Close], k);
    if k <= |body| {
      PrefixDepth(head, y, k);
      if k > |head| {
        assert Depth(y[..k - |head|]) >= 0;
      }
    } else {
      DepthAppend(head, y);
      assert y[..|y|] == y;
      assert [Close][..k - |body|] == [Close];
      assert multiset([Close]) == multiset{Close};
    }
  }

  /** The depth of the first `k` tokens of `(x) j (`. */
  lemma HeadPrefix(x: seq<Token>, j: Token, k: nat)
    requires Balanced(x) && j.Join?
    requires k <= |x| + 4
    ensures var head := [Open] + x + [Close, j, Open];
      Depth(head[..k]) >= 0 && Depth(head) == 1 &&
      (k != 0 && k != |x| + 2 && k != |x| + 3 ==> Depth(head[..k]) >= 1)
  {
    var front := [Open] + x;
    var tail := [Close, j, Open];
    assert multiset([Open]) == multiset{Open};
    assert multiset(tail) == multiset{Close, j, Open};
    assert x[..|x|] == x;
    DepthAppend([Open], x);
    DepthAppend(front, tail);
    PrefixDepth(front, tail, k);
    if k <= |front| {
      PrefixDepth([Open], x, k);
      if k > 0 {
        assert [Open][..1] == [Open];
      } else {
        assert [Open][..0] == [];
      }
    } else {
      var i := k - |front|;
      assert tail[..i] == if i == 1 then [Close] else if i == 2 then [Close, j] else tail;
      assert multiset([Close]) == multiset{Close};
      assert multiset([Close, j]) == multiset{Close, j};
    }
  }

  /**
   * `t` is balanced and its only connective outside every parenthesis is
   * the `op` at position `at`.
   */
  predicate SoleTopJoin(t: seq<Token>, at: nat, op: LogicalOp) {
    Balanced(t) && at < |t| && t[at] == Join(Some(op)) &&
    forall k :: 0 <= k < |t| && t[k].Join? && Depth(t[..k]) == 0 ==> k == at
  }

  /**
   * The merge keeps the text balanced, and the connective it adds is the
   * only one outside every parenthesis: no connective of either input can
   * bind across the join, whatever the inputs' own nesting.
   */
  lemma {:induction false} MergeEnclosesInputs(a: Clause, b: Clause, op: LogicalOp)
    requires Balanced(Tokens(a)) && Balanced(Tokens(b))
    ensures SoleTopJoin(Tokens(Merge(Some(a), Some(b), op).value), |Tokens(a)| + 2, op)
  {
    MergeTokens(a, b, op);
    EnclosedSole(Tokens(a), op, Tokens(b));
  }

  /** `EnclosedScopes` stated with `SoleTopJoin`. */
  lemma EnclosedSole(x: seq<Token>, op: LogicalOp, y: seq<Token>)
    requires Balanced(x) && Balanced(y)
    ensures SoleTopJoin([Open] + x + [Close, Join(Some(op)), Open] + y + [Close], |x| + 2, op)
  {
    EnclosedScopes(x, Join(Some(op)), y);
  }

  /** The merge of two well-formed chains is well formed. */
  lemma {:induction false} MergeWellFormed(a: Clause, b: Clause, op: LogicalOp)
    requires WellFormed(a) && WellFormed(b)
    ensures WellFormed(Merge(Some(a), Some(b), op).value)
  {
    CloseTailWellFormed(a.(left := OpenOnce(a.left)));
    CloseTailWellFormed(b.(left := OpenOnce(b.left)));
    SpliceWellFormed(Wrapped(a), op, Wrapped(b));
  }

  lemma {:induction false} CloseTailWellFormed(c: Clause)
    requires WellFormed(c)
    ensures WellFormed(CloseTail(c))
    decreases c
  {
    if c.right.Some? {
      CloseTailWellFormed(c.right.value);
    }
  }

  lemma {:induction false} SpliceWellFormed(c: Clause, op: LogicalOp, d: Clause)
    requires WellFormed(c) && WellFormed(d)
    ensures WellFormed(Splice(c, op, d))
    decreases c
  {
    if c.right.Some? {
      SpliceWellFormed(c.right.value, op, d);
    }
  }

  /**
   * Two single conditions without parentheses merge into the chain the
   * parser gives for `(c1) op (c2)` (src/index.test.ts:69-97).
   */
  lemma {:induction false} MergeTwoConditions(p1: Payload, p2: Payload, op: LogicalOp)
    ensures Merge(Some(Clause(Cond(None, None, p1), None, None)),
                  Some(Clause(Cond(None, None, p2), None, None)), op)
         == Some(Clause(Cond(Some(1), Some(1), p1), Some(op),
                        Some(Clause(Cond(Some(1), Some(1), p2), None, None))))
  {
  }
}
