/**
 * The WHERE-clause chain the merge works on, and two views of it used to
 * state what the merge does: the list of its nodes (`Links`) and the text
 * it serializes to (`Tokens`).
 */
module WhereClauses {
  import opened Wrappers

  /** The connective joining a node's condition to the next node. */
  datatype LogicalOp = And | Or

  /**
   * Everything a condition holds besides its parenthesis counters: field,
   * comparison operator, value, a negation or an `IN (SELECT ...)` sub-query.
   * The merge never looks inside it.
   */
  type Payload = string

  /** A condition with its scope markers: how many `(` precede it, how many `)` follow it. */
  datatype Cond = Cond(openParen: Option<nat>, closeParen: Option<nat>, payload: Payload)

  /**
   * A WHERE clause: a right-leaning chain. Each node holds its condition
   * (`left`), the connective to the next node (`op`) and the next node (`right`).
   */
  datatype Clause = Clause(left: Cond, op: Option<LogicalOp>, right: Option<Clause>)

  /** One node of a chain without its successor: the element type of `Links`. */
  datatype Link = Link(left: Cond, op: Option<LogicalOp>)

  /** A scope counter read as a number; an absent counter counts as 0. */
  function Count(markers: Option<nat>): nat {
    markers.GetOr(0)
  }

  /** The number of nodes in a chain. */
  function Length(c: Clause): (n: nat)
    ensures n >= 1
    ensures c.right.None? <==> n == 1
  {
    if c.right.None? then 1 else 1 + Length(c.right.value)
  }

  /** The nodes of a chain in order, from the head to the node without `right`. */
  function Links(c: Clause): (s: seq<Link>)
    ensures |s| == Length(c)
    ensures s[0] == Link(c.left, c.op)
  {
    [Link(c.left, c.op)] + if c.right.None? then [] else Links(c.right.value)
  }

  /** The chain whose nodes are `s`, in order. */
  function FromLinks(s: seq<Link>): (c: Clause)
    requires |s| > 0
    ensures c.left == s[0].left && c.op == s[0].op
    ensures c.right.None? <==> |s| == 1
    decreases |s|
  {
    Clause(s[0].left, s[0].op, if |s| == 1 then None else Some(FromLinks(s[1..])))
  }

  /** A chain is determined by its list of nodes: reading it back gives the same chain. */
  lemma {:induction false} LinksRoundTrip(c: Clause)
    ensures FromLinks(Links(c)) == c
    decreases c
  {
    if c.right.Some? {
      LinksRoundTrip(c.right.value);
    }
  }

  /** Every non-empty list of nodes is the list of exactly one chain. */
  lemma {:induction false} FromLinksRoundTrip(s: seq<Link>)
    requires |s| > 0
    ensures Links(FromLinks(s)) == s
    decreases |s|
  {
    if |s| > 1 {
      FromLinksRoundTrip(s[1..]);
    }
  }

  /**
   * The shape every chain built by the query parser has: a node carries a
   * connective exactly when it has a next node.
   */
  predicate WellFormed(c: Clause) {
    (c.op.Some? <==> c.right.Some?) && (c.right.Some? ==> WellFormed(c.right.value))
  }

  /** The tokens of the text a chain serializes to. */
  datatype Token = Open | Close | Atom(payload: Payload) | Join(op: Option<LogicalOp>)

  /** `n` copies of `t`. */
  function Repeat(t: Token, n: nat): (s: seq<Token>)
    ensures |s| == n
    ensures forall i :: 0 <= i < n ==> s[i] == t
  {
    if n == 0 then [] else [t] + Repeat(t, n - 1)
  }

  /** Appending one more copy at the end gives the same as one more copy at the front. */
  lemma {:induction false} RepeatSnoc(t: Token, n: nat)
    ensures Repeat(t, n + 1) == Repeat(t, n) + [t]
  {
    if n > 0 {
      RepeatSnoc(t, n - 1);
    }
  }

  /** A condition as text: its `(`s, the condition itself, its `)`s. */
  function CondTokens(cond: Cond): seq<Token> {
    Repeat(Open, Count(cond.openParen)) + [Atom(cond.payload)] + Repeat(Close, Count(cond.closeParen))
  }

  /**
   * A chain as text: each condition, then (where there is a next node) the
   * connective and the rest of the chain.
   */
  function Tokens(c: Clause): seq<Token> {
    CondTokens(c.left) + if c.right.None? then [] else [Join(c.op)] + Tokens(c.right.value)
  }

  /** Text is additive: the depth of a concatenation is the sum of the depths. */
  lemma DepthAppend(a: seq<Token>, b: seq<Token>)
    ensures Depth(a + b) == Depth(a) + Depth(b)
  {
    assert multiset(a + b) == multiset(a) + multiset(b);
  }

  /** The depth of a prefix of `a + b`, in terms of the parts. */
  lemma PrefixDepth(a: seq<Token>, b: seq<Token>, k: nat)
    requires k <= |a| + |b|
    ensures Depth((a + b)[..k]) == if k <= |a| then Depth(a[..k]) else Depth(a) + Depth(b[..k - |a|])
  {
    if k <= |a| {
      assert (a + b)[..k] == a[..k];
    } else {
      assert (a + b)[..k] == a + b[..k - |a|];
      DepthAppend(a, b[..k - |a|]);
    }
  }

  /** How many `(` minus how many `)` a stretch of text holds. */
  function Depth(ts: seq<Token>): int {
    (multiset(ts)[Open] as int) - multiset(ts)[Close]
  }

  /** Every `(` is matched by a later `)` and no `)` comes before its `(`. */
  predicate Balanced(ts: seq<Token>) {
    Depth(ts) == 0 && forall k :: 0 <= k <= |ts| ==> Depth(ts[..k]) >= 0
  }

  /** The total number of `(` in a chain's text. */
  function Opens(c: Clause): nat {
    multiset(Tokens(c))[Open]
  }

  /** The total number of `)` in a chain's text. */
  function Closes(c: Clause): nat {
    multiset(Tokens(c))[Close]
  }

  /** The nodes of a chain with a successor: its head, then the successor's nodes. */
  lemma {:induction false} LinksCons(left: Cond, op: Option<LogicalOp>, rest: Clause)
    ensures Links(Clause(left, op, Some(rest))) == [Link(left, op)] + Links(rest)
  {
  }

  /** The text of a chain with a successor: its condition, its connective, the rest. */
  lemma {:induction false} TokensCons(left: Cond, op: Option<LogicalOp>, rest: Clause)
    ensures Tokens(Clause(left, op, Some(rest))) == CondTokens(left) + [Join(op)] + Tokens(rest)
  {
  }

  /** Concatenation is associative. */
  lemma ConcatAssoc<T>(a: seq<T>, b: seq<T>, c: seq<T>)
    ensures a + (b + c) == (a + b) + c
  {
  }
}
