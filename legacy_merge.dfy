/**
 * The older `mergeWhereClauses` of index.ts:4-18: a recursive splice that
 * rebuilds the first chain node by node, sets every one of its connectives
 * to the merge connective, hangs the second chain after its last node and
 * adds no parentheses.
 */
module LegacyMerge {
  import opened Wrappers
  import opened WhereClauses

  /**
   * The node `{ left: { operator: '=' } }` returned when an input is missing
   * (index.ts:9): a condition that is only a comparison sign, no connective,
   * no successor.
   */
  const Placeholder := Clause(Cond(None, None, "="), None, None)

  /**
   * index.ts:4-18. With an input missing the result is the placeholder
   * (line 9); otherwise the chains are spliced by `Splice`. The guards of
   * lines 10-11 are not modelled: after the guard of line 9 both inputs are
   * present, so neither can fire.
   */
  function MergeWhereClauses(where1: Option<Clause>, where2: Option<Clause>, op: LogicalOp): (r: Clause)
    ensures (where1.None? || where2.None?) <==> r == Placeholder
    ensures where1.Some? && where2.Some? ==>
      r.left == where1.value.left && r.op == Some(op) &&
      Length(r) == Length(where1.value) + Length(where2.value)
  {
    if !(where1.Some? && where2.Some?) then Placeholder
    else Splice(where1.value, where2.value, op)
  }

  /**
   * index.ts:13-17 with both inputs present: the head of `a` with `op` as
   * its connective, followed by the splice of the rest of `a` or, at the
   * last node of `a`, by `b` itself.
   */
  function Splice(a: Clause, b: Clause, op: LogicalOp): (r: Clause)
    ensures r.left == a.left && r.op == Some(op) && r.right.Some?
    ensures Length(r) == Length(a) + Length(b)
    decreases a
  {
    Clause(a.left, Some(op), if a.right.Some? then Some(Splice(a.right.value, b, op)) else Some(b))
  }

  /** The nodes of `s` with every connective set to `op`. */
  function Rejoin(s: seq<Link>, op: LogicalOp): (r: seq<Link>)
  {
    seq(|s|, i requires 0 <= i < |s| => Link(s[i].left, Some(op)))
  }

  /**
   * The merged chain lists the conditions of `a`, each now followed by `op`,
   * then the nodes of `b` unchanged: every condition (and so its
   * parenthesis counters) comes out equal to the input's, never changed.
   */
  lemma {:induction false} LegacyLinks(a: Clause, b: Clause, op: LogicalOp)
    ensures Links(Splice(a, b, op)) == Rejoin(Links(a), op) + Links(b)
    decreases a
  {
    if a.right.Some? {
      LegacyLinks(a.right.value, b, op);
      LegacyLinksStep(a, b, op);
    } else {
      LinksCons(a.left, Some(op), b);
      assert Links(a) == [Link(a.left, a.op)];
    }
  }

  /** The inductive step of `LegacyLinks`: from the successor to the node itself. */
  lemma {:induction false} LegacyLinksStep(a: Clause, b: Clause, op: LogicalOp)
    requires a.right.Some?
    requires Links(Splice(a.right.value, b, op)) == Rejoin(Links(a.right.value), op) + Links(b)
    ensures Links(Splice(a, b, op)) == Rejoin(Links(a), op) + Links(b)
  {
    var head, rest := Link(a.left, Some(op)), a.right.value;
    var merged := Splice(rest, b, op);
    assert a == Clause(a.left, a.op, Some(rest));
    assert Splice(a, b, op) == Clause(a.left, Some(op), Some(merged));
    LinksCons(a.left, Some(op), merged);
    LinksCons(a.left, a.op, rest);
    RejoinCons(Links(a), op);
    assert Links(a)[1..] == Links(rest);
    ConcatAssoc([head], Rejoin(Links(rest), op), Links(b));
  }

  /** `Rejoin` works node by node. */
  lemma RejoinCons(s: seq<Link>, op: LogicalOp)
    requires |s| > 0
    ensures Rejoin(s, op) == [Link(s[0].left, Some(op))] + Rejoin(s[1..], op)
  {
  }

  /** The splice adds no parentheses: the scope counts are the inputs' summed. */
  lemma {:induction false} LegacyParenCounts(a: Clause, b: Clause, op: LogicalOp)
    ensures Opens(Splice(a, b, op)) == Opens(a) + Opens(b)
    ensures Closes(Splice(a, b, op)) == Closes(a) + Closes(b)
    decreases a
  {
    var r := Splice(a, b, op);
    var tail := if a.right.Some? then Splice(a.right.value, b, op) else b;
    assert r == Clause(a.left, Some(op), Some(tail));
    TokensCons(a.left, Some(op), tail);
    JoinCounts(CondTokens(a.left), Join(Some(op)), Tokens(tail));
    if a.right.Some? {
      LegacyParenCounts(a.right.value, b, op);
      TokensCons(a.left, a.op, a.right.value);
      JoinCounts(CondTokens(a.left), Join(a.op), Tokens(a.right.value));
    } else {
      JoinCounts(CondTokens(a.left), Join(Some(op)), []);
      assert Tokens(a) == CondTokens(a.left);
    }
  }

  /** A connective adds neither `(` nor `)`. */
  lemma JoinCounts(x: seq<Token>, j: Token, y: seq<Token>)
    requires j.Join?
    ensures multiset(x + [j] + y)[Open] == multiset(x)[Open] + multiset(y)[Open]
    ensures multiset(x + [j] + y)[Close] == multiset(x)[Close] + multiset(y)[Close]
    ensures multiset(x + [j])[Open] == multiset(x)[Open]
    ensures multiset(x + [j])[Close] == multiset(x)[Close]
  {
    assert multiset(x + [j] + y) == multiset(x) + multiset{j} + multiset(y);
    assert multiset(x + [j]) == multiset(x) + multiset{j};
  }

  /** Merging two well-formed chains gives a well-formed chain. */
  lemma {:induction false} LegacyWellFormed(a: Clause, b: Clause, op: LogicalOp)
    requires WellFormed(a) && WellFormed(b)
    ensures WellFormed(Splice(a, b, op))
    decreases a
  {
    if a.right.Some? {
      LegacyWellFormed(a.right.value, b, op);
    }
  }

  /**
   * Two single conditions merge into the flat chain `c1 op c2`, with no
   * parentheses (index.test.ts:8-15).
   */
  lemma {:induction false} LegacyTwoConditions(c1: Cond, c2: Cond, op: LogicalOp)
    ensures var r := MergeWhereClauses(Some(Clause(c1, None, None)), Some(Clause(c2, None, None)), op);
      r == Clause(c1, Some(op), Some(Clause(c2, None, None))) &&
      Tokens(r) == CondTokens(c1) + [Join(Some(op))] + CondTokens(c2)
  {
  }

  /**
   * The connective inside the first input is overwritten: merging
   * `f1 AND f3` with `f2` under OR reads `f1 OR f3 OR f2`, a different
   * condition from `(f1 AND f3) OR (f2)`.
   */
  lemma {:induction false} LegacyOverwritesJoins(f1: Cond, f2: Cond, f3: Cond)
    ensures var a := Clause(f1, Some(And), Some(Clause(f3, None, None)));
      var r := MergeWhereClauses(Some(a), Some(Clause(f2, None, None)), Or);
      Links(a)[0].op == Some(And) &&
      Links(r) == [Link(f1, Some(Or)), Link(f3, Some(Or)), Link(f2, None)]
  {
    var last, second := Clause(f2, None, None), Clause(f3, None, None);
    var a := Clause(f1, Some(And), Some(second));
    assert MergeWhereClauses(Some(a), Some(last), Or) == Splice(a, last, Or);
    assert Splice(second, last, Or) == Clause(f3, Some(Or), Some(last));
    assert Splice(a, last, Or) == Clause(f1, Some(Or), Some(Clause(f3, Some(Or), Some(last))));
    LinksCons(f3, Some(Or), last);
    LinksCons(f1, Some(Or), Clause(f3, Some(Or), Some(last)));
  }

  /** With only one input present the result is the placeholder, not that input. */
  lemma {:induction false} LegacyDropsPresentInput(c: Clause, op: LogicalOp)
    ensures MergeWhereClauses(Some(c), None, op) == Placeholder
    ensures MergeWhereClauses(None, Some(c), op) == Placeholder
    ensures c.left.payload != "=" ==> MergeWhereClauses(Some(c), None, op) != c
  {
  }
}
