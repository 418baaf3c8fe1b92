/** Operator precedence in metric and span queries.

    The query parsers build every operator chain right-nested and then call
    `binaryExprPrecedence`, which makes one pass per row of a precedence table.
    A pass moves operands between nodes; `ParenExpr` nodes mark what it grouped. */
module QueryPrecedence {

  datatype BinaryOp =
    | Pow
    | Mul | Div | Rem
    | Add | Sub
    | Eq | NotEq | LessEq | Less | GreaterEq | Greater
    | And | Unless
    | Or
    | Assign  // "=": the span grammar accepts it but no row of the table lists it

  /** `Term` stands for attributes, numbers and function calls. */
  datatype Expr =
    | Term(id: nat)
    | ParenExpr(expr: Expr)
    | BinaryExpr(op: BinaryOp, lhs: Expr, rhs: Expr)

  const OP_PRECEDENCE: seq<seq<BinaryOp>> := [
    [Pow],
    [Mul, Div, Rem],
    [Add, Sub],
    [Add, Sub],
    [Eq, NotEq, LessEq, Less, GreaterEq, Greater],
    [And, Unless],
    [Or]
  ]

  // ---------------------------------------------------------------------------
  // The rewriting
  // ---------------------------------------------------------------------------

  /** Number of binary nodes on the right spine: the termination measure. */
  function Spine(e: Expr): nat {
    if e.BinaryExpr? then 1 + Spine(e.rhs) else 0
  }

  /** Exactly the trees on which `unwrapBinaryExpr` does not panic. */
  predicate UnwrapsToBinary(e: Expr) {
    match e
    case Term(_) => false
    case ParenExpr(inner) => UnwrapsToBinary(inner)
    case BinaryExpr(_, _, _) => true
  }

  function UnwrapBinaryExpr(e: Expr): (r: Expr)
    requires UnwrapsToBinary(e)
    ensures r.BinaryExpr?
  {
    if e.BinaryExpr? then e else UnwrapBinaryExpr(e.expr)
  }

  /** `l op (m op' r)` regrouped as `(l op m) op' r`. */
  function Rotate(e: Expr): (r: Expr)
    requires e.BinaryExpr? && e.rhs.BinaryExpr?
    ensures r.BinaryExpr? && Spine(r) < Spine(e)
  {
    BinaryExpr(e.rhs.op, ParenExpr(BinaryExpr(e.op, e.lhs, e.rhs.lhs)), e.rhs.rhs)
  }

  function ExprPrecedence(e: Expr, ops: seq<BinaryOp>): (r: Expr)
    ensures !e.BinaryExpr? ==> r == e
    ensures e.BinaryExpr? ==> UnwrapsToBinary(r) && Spine(UnwrapBinaryExpr(r)) <= Spine(e)
    ensures e.BinaryExpr? && !r.BinaryExpr? ==> r == ParenExpr(e) && e.rhs.Term? && e.op in ops
    decreases Spine(e)
  {
    if !e.BinaryExpr? then e
    else if e.op !in ops then e.(rhs := ExprPrecedence(e.rhs, ops))
    else
      match e.rhs
      case BinaryExpr(_, _, _) =>
        var next := UnwrapBinaryExpr(ExprPrecedence(Rotate(e), ops));
        next.(rhs := ExprPrecedence(next.rhs, ops))
      case ParenExpr(_) => e
      case Term(_) => ParenExpr(e)
  }

  /** One row of the table. */
  function Pass(e: Expr, ops: seq<BinaryOp>): (r: Expr)
    requires e.BinaryExpr?
    ensures r.BinaryExpr?
  {
    UnwrapBinaryExpr(ExprPrecedence(e, ops))
  }

  /** The rows `from..` of the table, one after the other. */
  function Rewrite(e: Expr, from: nat): (r: Expr)
    requires e.BinaryExpr? && from <= |OP_PRECEDENCE|
    ensures r.BinaryExpr?
    decreases |OP_PRECEDENCE| - from
  {
    if from == |OP_PRECEDENCE| then e else Rewrite(Pass(e, OP_PRECEDENCE[from]), from + 1)
  }

  method BinaryExprPrecedence(e: Expr) returns (r: Expr)
    requires e.BinaryExpr?
    ensures r.BinaryExpr?
    ensures r == Rewrite(e, 0)
  {
    r := e;
    for row := 0 to |OP_PRECEDENCE|
      invariant r.BinaryExpr?
      invariant Rewrite(r, row) == Rewrite(e, 0)
    {
      r := UnwrapBinaryExpr(ExprPrecedence(r, OP_PRECEDENCE[row]));
    }
  }

  // ---------------------------------------------------------------------------
  // Every tree keeps its operands and operators, in order
  // ---------------------------------------------------------------------------

  datatype Token = Operand(id: nat) | Operator(op: BinaryOp)

  function InOrder(e: Expr): seq<Token> {
    match e
    case Term(id) => [Operand(id)]
    case ParenExpr(inner) => InOrder(inner)
    case BinaryExpr(op, lhs, rhs) => InOrder(lhs) + [Operator(op)] + InOrder(rhs)
  }

  lemma {:induction false} UnwrapKeepsOrder(e: Expr)
    requires UnwrapsToBinary(e)
    ensures InOrder(UnwrapBinaryExpr(e)) == InOrder(e)
  {
    if e.ParenExpr? { UnwrapKeepsOrder(e.expr); }
  }

  lemma {:induction false} RotateKeepsOrder(e: Expr)
    requires e.BinaryExpr? && e.rhs.BinaryExpr?
    ensures InOrder(Rotate(e)) == InOrder(e)
  {
    var l, m, r := InOrder(e.lhs), InOrder(e.rhs.lhs), InOrder(e.rhs.rhs);
    calc {
      InOrder(Rotate(e));
      InOrder(ParenExpr(BinaryExpr(e.op, e.lhs, e.rhs.lhs))) + [Operator(e.rhs.op)] + r;
      (l + [Operator(e.op)] + m) + [Operator(e.rhs.op)] + r;
      l + [Operator(e.op)] + (m + [Operator(e.rhs.op)] + r);
      InOrder(e);
    }
  }

  lemma {:induction false} ExprPrecedenceKeepsOrder(e: Expr, ops: seq<BinaryOp>)
    ensures InOrder(ExprPrecedence(e, ops)) == InOrder(e)
    decreases Spine(e)
  {
    if !e.BinaryExpr? {
    } else if e.op !in ops {
      ExprPrecedenceKeepsOrder(e.rhs, ops);
    } else if e.rhs.BinaryExpr? {
      RotateKeepsOrder(e);
      ExprPrecedenceKeepsOrder(Rotate(e), ops);
      UnwrapKeepsOrder(ExprPrecedence(Rotate(e), ops));
      var next := UnwrapBinaryExpr(ExprPrecedence(Rotate(e), ops));
      ExprPrecedenceKeepsOrder(next.rhs, ops);
    }
  }

  lemma {:induction false} RewriteKeepsOrder(e: Expr, from: nat)
    requires e.BinaryExpr? && from <= |OP_PRECEDENCE|
    ensures InOrder(Rewrite(e, from)) == InOrder(e)
    decreases |OP_PRECEDENCE| - from
  {
    if from < |OP_PRECEDENCE| {
      ExprPrecedenceKeepsOrder(e, OP_PRECEDENCE[from]);
      UnwrapKeepsOrder(ExprPrecedence(e, OP_PRECEDENCE[from]));
      RewriteKeepsOrder(Pass(e, OP_PRECEDENCE[from]), from + 1);
    }
  }

  // ---------------------------------------------------------------------------
  // Reference: conventional precedence of an operator chain
  // ---------------------------------------------------------------------------

  /** Grouping without parentheses. */
  datatype Tree = Leaf(id: nat) | Node(op: BinaryOp, left: Tree, right: Tree)

  function Strip(e: Expr): Tree {
    match e
    case Term(id) => Leaf(id)
    case ParenExpr(inner) => Strip(inner)
    case BinaryExpr(op, lhs, rhs) => Node(op, Strip(lhs), Strip(rhs))
  }

  /** How tightly an operator binds: 0 is the tightest. */
  function Rank(op: BinaryOp): nat {
    match op
    case Pow => 0
    case Mul | Div | Rem => 1
    case Add | Sub => 2
    case Eq | NotEq | LessEq | Less | GreaterEq | Greater => 3
    case And | Unless => 4
    case Or => 5
    case Assign => 6
  }

  /** A chain of operands and operators: `t op rest`. */
  datatype Links = End(t: Tree) | Link(t: Tree, op: BinaryOp, rest: Links)

  function Length(c: Links): nat {
    if c.End? then 0 else 1 + Length(c.rest)
  }

  function WithHead(c: Links, t: Tree): (r: Links)
    ensures Length(r) == Length(c)
  {
    c.(t := t)
  }

  /** `c` with every operator of rank `rank` applied, left to right. */
  function Merged(c: Links, rank: nat): (r: Links)
    ensures Length(r) <= Length(c)
    decreases Length(c)
  {
    match c
    case End(_) => c
    case Link(t, op, rest) =>
      if Rank(op) == rank then Merged(WithHead(rest, Node(op, t, rest.t)), rank)
      else Link(t, op, Merged(rest, rank))
  }

  /** The conventional grouping: the operators of rank `from` are applied from left to
      right, then those of the next looser rank, and so on. */
  function Conventional(c: Links, from: nat): Tree
    decreases 7 - from
  {
    if from > 6 then c.t else Conventional(Merged(c, from), from + 1)
  }

  // ---------------------------------------------------------------------------
  // Operator chains, as the parser builds them
  // ---------------------------------------------------------------------------

  /** A right-nested chain: no operand of the spine is itself a bare binary node. */
  predicate Chain(e: Expr) {
    e.BinaryExpr? ==> !e.lhs.BinaryExpr? && Chain(e.rhs)
  }

  function LastOperand(e: Expr): Expr {
    if e.BinaryExpr? then LastOperand(e.rhs) else e
  }

  /** A chain with each operand reduced to its tree. */
  function LinksOf(e: Expr): Links {
    if e.BinaryExpr? then Link(Strip(e.lhs), e.op, LinksOf(e.rhs)) else End(Strip(e))
  }

  /** The ranks of the chain's operators. */
  function ChainRanks(e: Expr): seq<nat> {
    if e.BinaryExpr? then [Rank(e.op)] + ChainRanks(e.rhs) else []
  }

  /** The grouping a reader expects of the chain `e`. */
  function Expected(e: Expr): Tree {
    Conventional(LinksOf(e), 0)
  }

  predicate IsRow(ops: seq<BinaryOp>, rank: nat) {
    forall op :: op in ops <==> Rank(op) == rank
  }

  lemma {:induction false} MergedTwice(c: Links, rank: nat)
    ensures Merged(Merged(c, rank), rank) == Merged(c, rank)
    decreases Length(c)
  {
    if c.Link? {
      if Rank(c.op) == rank {
        MergedTwice(WithHead(c.rest, Node(c.op, c.t, c.rest.t)), rank);
      } else {
        MergedTwice(c.rest, rank);
      }
    }
  }

  lemma {:induction false} WrappedMerges(u: Expr, row: seq<BinaryOp>, rank: nat)
    requires u.BinaryExpr? && u.op in row && !u.rhs.BinaryExpr? && IsRow(row, rank)
    ensures Merged(LinksOf(ParenExpr(u)), rank) == Merged(LinksOf(u), rank)
  {
    assert LinksOf(u.rhs) == End(Strip(u.rhs));
    assert Rank(u.op) == rank;
    var wrapped := End(Node(u.op, Strip(u.lhs), Strip(u.rhs)));
    assert Strip(ParenExpr(u)) == Strip(u) == wrapped.t;
    assert Merged(LinksOf(u), rank) == Merged(wrapped, rank) == wrapped;
  }

  lemma {:induction false} RotateMerges(e: Expr, row: seq<BinaryOp>, rank: nat)
    requires e.BinaryExpr? && e.rhs.BinaryExpr? && e.op in row && IsRow(row, rank)
    ensures Merged(LinksOf(Rotate(e)), rank) == Merged(LinksOf(e), rank)
  {
    var rest := LinksOf(e.rhs);
    assert Rank(e.op) == rank;
    assert LinksOf(e) == Link(Strip(e.lhs), e.op, rest);
    var inner := BinaryExpr(e.op, e.lhs, e.rhs.lhs);
    assert Strip(ParenExpr(inner)) == Strip(inner) == Node(e.op, Strip(e.lhs), rest.t);
    assert LinksOf(Rotate(e)) == WithHead(rest, Node(e.op, Strip(e.lhs), rest.t));
  }

  /** A pass regroups a chain only by applying operators of its own row, left to right. */
  lemma {:induction false} PassMerges(e: Expr, row: seq<BinaryOp>, rank: nat)
    requires e.BinaryExpr? && Chain(e) && IsRow(row, rank)
    ensures var r := ExprPrecedence(e, row);
      var u := UnwrapBinaryExpr(r);
      && Chain(u)
      && Merged(LinksOf(u), rank) == Merged(LinksOf(e), rank)
      && (u.op in row ==> !u.rhs.BinaryExpr?)
      && (r != u ==> r == ParenExpr(u) && u.op in row)
    decreases Spine(e)
  {
    if e.op !in row {
      if e.rhs.BinaryExpr? {
        PassMerges(e.rhs, row, rank);
        var r := ExprPrecedence(e.rhs, row);
        if r.ParenExpr? { WrappedMerges(r.expr, row, rank); }
      }
    } else if e.rhs.BinaryExpr? {
      RotateMerges(e, row, rank);
      PassMerges(Rotate(e), row, rank);
      var next := UnwrapBinaryExpr(ExprPrecedence(Rotate(e), row));
      if next.rhs.BinaryExpr? {
        PassMerges(next.rhs, row, rank);
        var r := ExprPrecedence(next.rhs, row);
        if r.ParenExpr? { WrappedMerges(r.expr, row, rank); }
        assert Merged(LinksOf(r), rank) == Merged(LinksOf(next.rhs), rank);
      }
    }
  }

  /** The chain's operators that do not belong to the row. */
  function Without(ranks: seq<nat>, rank: nat): seq<nat> {
    if ranks == [] then []
    else (if ranks[0] == rank then [] else [ranks[0]]) + Without(ranks[1..], rank)
  }

  predicate AllRank(ranks: seq<nat>, rank: nat) {
    forall k :: 0 <= k < |ranks| ==> ranks[k] == rank
  }

  /** Two or more operators of the row end the chain and no other operator of the row
      occurs before them. */
  predicate LoneRun(ranks: seq<nat>, rank: nat) {
    ranks != [] &&
    if ranks[0] == rank then |ranks| >= 2 && AllRank(ranks, rank) else LoneRun(ranks[1..], rank)
  }

  /** When a pass leaves the chain's last operator in place although it belongs to the row. */
  predicate Stuck(ranks: seq<nat>, parenLast: bool, rank: nat) {
    ranks != [] && ranks[|ranks| - 1] == rank && (parenLast || LoneRun(ranks, rank))
  }

  lemma {:induction false} WithoutAll(ranks: seq<nat>, rank: nat)
    requires AllRank(ranks, rank)
    ensures Without(ranks, rank) == []
  {
    if ranks != [] { WithoutAll(ranks[1..], rank); }
  }

  predicate NoRank(ranks: seq<nat>, rank: nat) {
    forall k :: 0 <= k < |ranks| ==> ranks[k] != rank
  }

  lemma {:induction false} WithoutNoRank(ranks: seq<nat>, rank: nat)
    ensures NoRank(Without(ranks, rank), rank)
    ensures !AllRank(ranks, rank) ==> Without(ranks, rank) != []
  {
    if ranks != [] { WithoutNoRank(ranks[1..], rank); }
  }

  /** A row that survives only at the end of a chain: the next pass sees a run of one. */
  lemma {:induction false} LastOnly(ranks: seq<nat>, tail: seq<nat>, rank: nat)
    requires NoRank(ranks, rank) && |tail| <= 1 && AllRank(tail, rank)
    ensures Without(ranks + tail, rank) == ranks
    ensures !LoneRun(ranks + tail, rank)
  {
    if ranks == [] {
      assert ranks + tail == tail;
      WithoutAll(tail, rank);
    } else {
      assert (ranks + tail)[1..] == ranks[1..] + tail;
      LastOnly(ranks[1..], tail, rank);
    }
  }

  /** The operators `after` a pass, and whether the last operand is then parenthesised. */
  predicate Shape(ranks: seq<nat>, parenLast: bool, rank: nat, after: seq<nat>, parenAfter: bool)
    requires ranks != []
  {
    var last := ranks[|ranks| - 1];
    var stuck := Stuck(ranks, parenLast, rank);
    && after == Without(ranks, rank) + (if stuck then [last] else [])
    && (parenAfter <==> parenLast || (last == rank && !stuck))
  }

  /** A settled chain is not changed by another visit of the same row. */
  lemma SecondVisitSettled(kept: seq<nat>, tail: seq<nat>, parenMid: bool, rank: nat, after: seq<nat>, parenAfter: bool)
    requires NoRank(kept, rank) && kept + tail != [] && (tail == [] || tail == [rank])
    requires Shape(kept + tail, parenMid, rank, after, parenAfter)
    ensures after == kept + (if tail != [] && parenMid then tail else [])
    ensures parenAfter <==> parenMid || tail != []
  {
    LastOnly(kept, tail, rank);
    assert kept + [] == kept;
    assert tail == [] ==> kept + tail == kept && kept[|kept| - 1] != rank;
  }

  /** The rest of a chain is visited again after a regrouping; the second visit settles it. */
  lemma SecondVisit(ranks: seq<nat>, parenLast: bool, rank: nat,
                    mid: seq<nat>, parenMid: bool, after: seq<nat>, parenAfter: bool)
    requires |ranks| >= 2 && ranks[0] == rank && !AllRank(ranks, rank)
    requires Shape(ranks[1..], parenLast, rank, mid, parenMid)
    requires mid != []
    requires if mid[1..] == [] then after == [] && parenAfter == parenMid
             else Shape(mid[1..], parenMid, rank, after, parenAfter)
    ensures mid[0] != rank
    ensures Shape(ranks, parenLast, rank, [mid[0]] + after, parenAfter)
  {
    var rest, last := ranks[1..], ranks[|ranks| - 1];
    assert last == rest[|rest| - 1];
    assert !AllRank(rest, rank);
    var kept := Without(rest, rank);
    assert kept != [] && NoRank(kept, rank) by { WithoutNoRank(rest, rank); }
    var first, more := kept[0], kept[1..];
    var tail := if Stuck(rest, parenLast, rank) then [last] else [];
    assert mid[0] == first && mid[1..] == more + tail;
    assert Without(ranks, rank) == kept;
    assert !LoneRun(ranks, rank);
    assert Stuck(ranks, parenLast, rank) <==> last == rank && parenLast;
    if more + tail != [] { SecondVisitSettled(more, tail, parenMid, rank, after, parenAfter); }
  }

  predicate PassShaped(e: Expr, r: Expr, rank: nat) {
    && ChainRanks(e) != []
    && Shape(ChainRanks(e), LastOperand(e).ParenExpr?, rank, ChainRanks(r), LastOperand(r).ParenExpr?)
  }

  /** A chain of one rank keeps its last operator at the root. */
  lemma {:induction false} UniformShape(e: Expr, row: seq<BinaryOp>, rank: nat)
    requires e.BinaryExpr? && e.rhs.BinaryExpr? && e.op in row && AllRank(ChainRanks(e), rank)
    requires PassShaped(Rotate(e), ExprPrecedence(Rotate(e), row), rank)
    ensures PassShaped(e, ExprPrecedence(e, row), rank)
  {
    var e' := Rotate(e);
    assert ChainRanks(e) == [Rank(e.op)] + ChainRanks(e') && ChainRanks(e') == [Rank(e'.op)] + ChainRanks(e'.rhs);
    WithoutAll(ChainRanks(e), rank);
    WithoutAll(ChainRanks(e'), rank);
    var r' := ExprPrecedence(e', row);
    var next := UnwrapBinaryExpr(r');
    if r'.BinaryExpr? {
      assert ChainRanks(next) == [Rank(next.op)] + ChainRanks(next.rhs);
    } else {
      assert r' == ParenExpr(e') && next == UnwrapBinaryExpr(e') == e';
    }
    assert !next.rhs.BinaryExpr?;
    assert ExprPrecedence(e, row) == next;
  }

  lemma {:induction false} MixedShape(e: Expr, row: seq<BinaryOp>, rank: nat)
    requires e.BinaryExpr? && e.rhs.BinaryExpr? && e.op in row && IsRow(row, rank) && !AllRank(ChainRanks(e), rank)
    requires PassShaped(Rotate(e), ExprPrecedence(Rotate(e), row), rank)
    requires var next := UnwrapBinaryExpr(ExprPrecedence(Rotate(e), row));
      next.rhs.BinaryExpr? ==> PassShaped(next.rhs, ExprPrecedence(next.rhs, row), rank)
    ensures PassShaped(e, ExprPrecedence(e, row), rank)
  {
    var e' := Rotate(e);
    var ranks, parenLast := ChainRanks(e), LastOperand(e).ParenExpr?;
    assert ranks == [Rank(e.op)] + ChainRanks(e');
    assert ranks[1..] == ChainRanks(e');
    assert LastOperand(e') == LastOperand(e.rhs) == LastOperand(e);
    WithoutNoRank(ranks[1..], rank);
    var next := ExprPrecedence(e', row);
    assert next.BinaryExpr? && next == UnwrapBinaryExpr(next);
    var r := ExprPrecedence(next.rhs, row);
    assert ChainRanks(next)[1..] == ChainRanks(next.rhs);
    assert ExprPrecedence(e, row) == next.(rhs := r);
    SecondVisit(ranks, parenLast, rank, ChainRanks(next), LastOperand(next).ParenExpr?, ChainRanks(r), LastOperand(r).ParenExpr?);
  }

  /** What one pass does to the operators of a chain and to its last operand. */
  lemma {:induction false} PassShape(e: Expr, row: seq<BinaryOp>, rank: nat)
    requires e.BinaryExpr? && Chain(e) && IsRow(row, rank)
    ensures PassShaped(e, ExprPrecedence(e, row), rank)
    decreases Spine(e)
  {
    if !e.rhs.BinaryExpr? {
      assert ChainRanks(e) == [Rank(e.op)];
    } else if e.op !in row {
      PassShape(e.rhs, row, rank);
      assert ChainRanks(e)[1..] == ChainRanks(e.rhs);
    } else {
      PassShape(Rotate(e), row, rank);
      if AllRank(ChainRanks(e), rank) {
        UniformShape(e, row, rank);
      } else {
        PassMerges(Rotate(e), row, rank);
        var next := UnwrapBinaryExpr(ExprPrecedence(Rotate(e), row));
        if next.rhs.BinaryExpr? { PassShape(next.rhs, row, rank); }
        MixedShape(e, row, rank);
      }
    }
  }

  // ---------------------------------------------------------------------------
  // A pass that only meets its own rank and looser ones keeps the grouping
  // ---------------------------------------------------------------------------

  predicate MinRank(ranks: seq<nat>, rank: nat) {
    forall k :: 0 <= k < |ranks| ==> rank <= ranks[k]
  }

  lemma {:induction false} MergedAbsent(e: Expr, rank: nat)
    requires MinRank(ChainRanks(e), rank + 1)
    ensures Merged(LinksOf(e), rank) == LinksOf(e)
  {
    if e.BinaryExpr? {
      var ranks := ChainRanks(e);
      assert ranks[0] == Rank(e.op) && ranks[1..] == ChainRanks(e.rhs);
      MergedAbsent(e.rhs, rank);
    }
  }

  /** The ranks tighter than all operators of a chain do not matter. */
  lemma {:induction false} ExpectedFrom(e: Expr, rank: nat)
    requires MinRank(ChainRanks(e), rank) && rank <= 6
    ensures Expected(e) == Conventional(LinksOf(e), rank)
  {
    if rank > 0 {
      ExpectedFrom(e, rank - 1);
      MergedAbsent(e, rank - 1);
    }
  }

  lemma {:induction false} PassKeepsExpected(e: Expr, row: seq<BinaryOp>, rank: nat)
    requires e.BinaryExpr? && Chain(e) && IsRow(row, rank) && rank <= 6
    requires MinRank(ChainRanks(e), rank) && MinRank(ChainRanks(Pass(e, row)), rank)
    ensures Chain(Pass(e, row)) && Expected(Pass(e, row)) == Expected(e)
  {
    PassMerges(e, row, rank);
    ExpectedFrom(e, rank);
    ExpectedFrom(Pass(e, row), rank);
  }

  function LinkRanks(c: Links): seq<nat> {
    if c.End? then [] else [Rank(c.op)] + LinkRanks(c.rest)
  }

  lemma {:induction false} LinkRanksOf(e: Expr)
    ensures LinkRanks(LinksOf(e)) == ChainRanks(e)
  {
    if e.BinaryExpr? { LinkRanksOf(e.rhs); }
  }

  /** What is left after applying one rank, and what is at the root if nothing is left. */
  lemma {:induction false} MergedRanks(c: Links, rank: nat)
    requires MinRank(LinkRanks(c), rank)
    ensures MinRank(LinkRanks(Merged(c, rank)), rank + 1)
    ensures forall r :: r in LinkRanks(c) && r != rank ==> r in LinkRanks(Merged(c, rank))
    ensures c.Link? && Merged(c, rank).End? ==> Merged(c, rank).t.Node? && Rank(Merged(c, rank).t.op) == rank
    decreases Length(c)
  {
    if c.Link? {
      assert LinkRanks(c)[0] == Rank(c.op) && LinkRanks(c)[1..] == LinkRanks(c.rest);
      if Rank(c.op) == rank {
        var c' := WithHead(c.rest, Node(c.op, c.t, c.rest.t));
        assert LinkRanks(c') == LinkRanks(c.rest);
        MergedRanks(c', rank);
      } else {
        MergedRanks(c.rest, rank);
      }
    }
  }

  /** The root of the grouping is as loose as any operator of the chain. */
  lemma {:induction false} ConventionalRoot(c: Links, from: nat, r: nat)
    requires r in LinkRanks(c) && MinRank(LinkRanks(c), from) && from <= r <= 6
    ensures Conventional(c, from).Node? && Rank(Conventional(c, from).op) >= r
    decreases 7 - from
  {
    MergedRanks(c, from);
    if Merged(c, from).End? {
      EndGrouped(Merged(c, from), from + 1);
    } else {
      var m := Merged(c, from);
      assert LinkRanks(m)[0] == Rank(m.op) <= 6;
      ConventionalRoot(m, from + 1, if r == from then Rank(m.op) else r);
    }
  }

  lemma {:induction false} EndGrouped(c: Links, from: nat)
    requires c.End?
    ensures Conventional(c, from) == c.t
    decreases 7 - from
  {
    if from <= 6 { EndGrouped(c, from + 1); }
  }

  // ---------------------------------------------------------------------------
  // When the rewriting agrees with conventional precedence
  // ---------------------------------------------------------------------------

  /** The operators of rank `rank` and looser. */
  function AtLeast(ranks: seq<nat>, rank: nat): seq<nat> {
    if ranks == [] then []
    else (if ranks[0] >= rank then [ranks[0]] else []) + AtLeast(ranks[1..], rank)
  }

  function Last(ranks: seq<nat>): nat
    requires ranks != []
  {
    ranks[|ranks| - 1]
  }

  /** The chains that are grouped conventionally. Either no operator is looser than the
      last one. Or the last operand is not parenthesised, the last operator looser than
      the last one is among the loosest of the chain, and the operators of the last one's
      rank are additions (whose row is in the table twice), or not two or more of them end
      the chain with none before. */
  predicate GroupsConventionally(ranks: seq<nat>, parenLast: bool)
    requires ranks != []
  {
    var rank := Last(ranks);
    LastSettles(rank, AtLeast(ranks, rank), AtLeast(ranks, rank + 1), parenLast)
  }

  predicate LastSettles(rank: nat, notTighter: seq<nat>, looser: seq<nat>, parenLast: bool) {
    || looser == []
    || (!parenLast
        && AtLeast(looser, Last(looser) + 1) == []
        && (rank == Rank(Add) || !LoneRun(notTighter, rank)))
  }

  /** The passes for one rank: the row of additions is applied twice. */
  function PassRank(e: Expr, rank: nat): (r: Expr)
    requires e.BinaryExpr? && rank <= 5
    ensures r.BinaryExpr?
  {
    var once := Pass(e, OP_PRECEDENCE[RowOf(rank)]);
    if rank == 2 then Pass(once, OP_PRECEDENCE[3]) else once
  }

  function RowOf(rank: nat): (row: nat)
    requires rank <= 6
    ensures row <= |OP_PRECEDENCE|
  {
    if rank <= 2 then rank else rank + 1
  }

  lemma RowsAreRanks(rank: nat)
    requires rank <= 5
    ensures IsRow(OP_PRECEDENCE[RowOf(rank)], rank) && IsRow(OP_PRECEDENCE[3], 2)
  {
  }

  lemma {:induction false} RewriteByRank(e: Expr, rank: nat)
    requires e.BinaryExpr? && rank <= 5
    ensures Rewrite(e, RowOf(rank)) == Rewrite(PassRank(e, rank), RowOf(rank + 1))
  {
    var row := RowOf(rank);
    if rank != 2 {
      assert RowOf(rank + 1) == row + 1;
      assert PassRank(e, rank) == Pass(e, OP_PRECEDENCE[row]);
    }
  }

  lemma {:induction false} AtLeastAbove(ranks: seq<nat>, rank: nat)
    ensures MinRank(AtLeast(ranks, rank), rank)
  {
    if ranks != [] {
      AtLeastAbove(ranks[1..], rank);
    }
  }

  lemma {:induction false} AtLeastAll(ranks: seq<nat>, rank: nat)
    requires MinRank(ranks, rank)
    ensures AtLeast(ranks, rank) == ranks
    ensures Without(ranks, rank) == AtLeast(ranks, rank + 1)
  {
    if ranks != [] {
      assert rank <= ranks[0] && MinRank(ranks[1..], rank);
      AtLeastAll(ranks[1..], rank);
    }
  }

  lemma {:induction false} AtLeastNone(ranks: seq<nat>, rank: nat)
    requires AllRank(ranks, rank)
    ensures AtLeast(ranks, rank + 1) == []
  {
    if ranks != [] {
      assert ranks[0] == rank && AllRank(ranks[1..], rank);
      AtLeastNone(ranks[1..], rank);
    }
  }

  lemma {:induction false} AtLeastLast(ranks: seq<nat>, rank: nat)
    requires ranks != [] && Last(ranks) >= rank
    ensures AtLeast(ranks, rank) != [] && Last(AtLeast(ranks, rank)) == Last(ranks)
  {
    var rest := ranks[1..];
    if rest == [] {
      assert ranks == [ranks[0]];
    } else {
      assert Last(rest) == Last(ranks);
      AtLeastLast(rest, rank);
    }
  }

  lemma AtLeastFacts(ranks: seq<nat>, rank: nat)
    ensures MinRank(AtLeast(ranks, rank), rank)
    ensures MinRank(ranks, rank) ==> AtLeast(ranks, rank) == ranks
    ensures MinRank(ranks, rank) ==> Without(ranks, rank) == AtLeast(ranks, rank + 1)
    ensures AllRank(ranks, rank) ==> AtLeast(ranks, rank + 1) == []
    ensures ranks != [] && Last(ranks) >= rank ==> AtLeast(ranks, rank) != [] && Last(AtLeast(ranks, rank)) == Last(ranks)
  {
    AtLeastAbove(ranks, rank);
    if MinRank(ranks, rank) { AtLeastAll(ranks, rank); }
    if AllRank(ranks, rank) { AtLeastNone(ranks, rank); }
    if ranks != [] && Last(ranks) >= rank { AtLeastLast(ranks, rank); }
  }

  lemma {:induction false} AtLeastTwice(ranks: seq<nat>, low: nat, high: nat)
    requires low <= high
    ensures AtLeast(AtLeast(ranks, low), high) == AtLeast(ranks, high)
  {
    if ranks != [] {
      AtLeastTwice(ranks[1..], low, high);
      var rest := AtLeast(ranks[1..], low);
      assert [] + rest == rest && ([ranks[0]] + rest)[1..] == rest;
    }
  }

  /** A chain with one operator is already grouped. */
  lemma {:induction false} SingleGrouped(e: Expr)
    requires e.BinaryExpr? && Chain(e) && !e.rhs.BinaryExpr? && Rank(e.op) <= 6
    ensures Strip(e) == Expected(e)
  {
    var r, rank := End(Strip(e.rhs)), Rank(e.op);
    assert LinksOf(e.rhs) == r && ChainRanks(e.rhs) == [];
    assert ChainRanks(e) == [rank];
    ExpectedFrom(e, rank);
    assert Merged(LinksOf(e), rank) == Merged(End(Strip(e)), rank) == End(Strip(e));
    EndGrouped(End(Strip(e)), rank + 1);
  }

  /** No pass changes such a chain. */
  lemma {:induction false} SingleOperator(e: Expr, from: nat)
    requires e.BinaryExpr? && !e.rhs.BinaryExpr? && from <= |OP_PRECEDENCE|
    ensures Rewrite(e, from) == e
    decreases |OP_PRECEDENCE| - from
  {
    if from < |OP_PRECEDENCE| {
      assert UnwrapBinaryExpr(ParenExpr(e)) == UnwrapBinaryExpr(e) == e;
      assert ExprPrecedence(e, OP_PRECEDENCE[from]) in {e, ParenExpr(e)};
      SingleOperator(e, from + 1);
    }
  }

  /** One pass over a longer chain. */
  lemma {:induction false} PassLonger(e: Expr, row: seq<BinaryOp>, rank: nat)
    requires e.BinaryExpr? && Chain(e) && IsRow(row, rank) && |ChainRanks(e)| > 1
    ensures Chain(Pass(e, row)) && PassShaped(e, Pass(e, row), rank)
  {
    PassShape(e, row, rank);
    PassMerges(e, row, rank);
    assert ChainRanks(e) == [Rank(e.op)] + ChainRanks(e.rhs);
    assert e.rhs.BinaryExpr?;
  }

  lemma ShapeKeepsMin(ranks: seq<nat>, parenLast: bool, rank: nat, after: seq<nat>, parenAfter: bool)
    requires ranks != [] && MinRank(ranks, rank) && Shape(ranks, parenLast, rank, after, parenAfter)
    ensures MinRank(after, rank)
  {
    var rest := AtLeast(ranks, rank + 1);
    AtLeastAll(ranks, rank);
    AtLeastAbove(ranks, rank + 1);
    assert forall k :: 0 <= k < |rest| ==> after[k] == rest[k];
  }

  lemma {:induction false} PassLongerKeeps(e: Expr, row: seq<BinaryOp>, rank: nat)
    requires e.BinaryExpr? && Chain(e) && IsRow(row, rank) && |ChainRanks(e)| > 1
    requires MinRank(ChainRanks(e), rank)
    ensures Expected(Pass(e, row)) == Expected(e)
    ensures MinRank(ChainRanks(Pass(e, row)), rank)
  {
    var ranks, parenLast := ChainRanks(e), LastOperand(e).ParenExpr?;
    assert Shape(ranks, parenLast, rank, ChainRanks(Pass(e, row)), LastOperand(Pass(e, row)).ParenExpr?) by {
      PassLonger(e, row, rank);
    }
    ShapeKeepsMin(ranks, parenLast, rank, ChainRanks(Pass(e, row)), LastOperand(Pass(e, row)).ParenExpr?);
    PassKeepsExpected(e, row, rank);
  }

  lemma {:induction false} WithoutSplit(a: seq<nat>, b: seq<nat>, rank: nat)
    ensures Without(a + b, rank) == Without(a, rank) + Without(b, rank)
  {
    if a == [] {
      assert a + b == b;
    } else {
      assert (a + b)[1..] == a[1..] + b;
      WithoutSplit(a[1..], b, rank);
    }
  }

  lemma LeftBehindOnce(e: Expr, kept: seq<nat>, last: nat, row: seq<BinaryOp>, rank: nat) returns (u: Expr)
    requires e.BinaryExpr? && Chain(e) && ChainRanks(e) == kept + [last]
    requires IsRow(row, rank) && last != rank && MinRank(kept, rank)
    ensures u == Pass(e, row) && Chain(u) && ChainRanks(u) == AtLeast(kept, rank + 1) + [last]
  {
    u := Pass(e, row);
    AtLeastFacts(kept, rank);
    if kept == [] {
      assert ChainRanks(e) == [Rank(e.op)] + ChainRanks(e.rhs);
      assert !e.rhs.BinaryExpr?;
      assert UnwrapBinaryExpr(ParenExpr(e)) == UnwrapBinaryExpr(e) == e;
    } else {
      PassLonger(e, row, rank);
      WithoutSplit(kept, [last], rank);
    }
  }

  predicate Known(ranks: seq<nat>) {
    forall k :: 0 <= k < |ranks| ==> ranks[k] <= 5
  }

  lemma {:induction false} AtLeastKnown(ranks: seq<nat>, rank: nat)
    requires Known(ranks)
    ensures Known(AtLeast(ranks, rank))
    ensures rank >= 6 ==> AtLeast(ranks, rank) == []
  {
    if ranks != [] {
      assert ranks[0] <= 5;
      AtLeastKnown(ranks[1..], rank);
    }
  }

  lemma {:induction false} LeftBehindRank(e: Expr, kept: seq<nat>, last: nat, rank: nat)
    requires e.BinaryExpr? && Chain(e) && ChainRanks(e) == kept + [last]
    requires rank <= 5 && MinRank(kept, rank) && last < rank
    ensures Chain(PassRank(e, rank)) && ChainRanks(PassRank(e, rank)) == AtLeast(kept, rank + 1) + [last]
  {
    RowsAreRanks(rank);
    var u := LeftBehindOnce(e, kept, last, OP_PRECEDENCE[RowOf(rank)], rank);
    if rank == 2 {
      var kept' := AtLeast(kept, 3);
      assert MinRank(kept', 2) && AtLeast(kept', 3) == kept' by {
        AtLeastFacts(kept, 3);
        AtLeastFacts(kept', 3);
      }
      u := LeftBehindOnce(u, kept', last, OP_PRECEDENCE[3], 2);
    }
  }

  /** An operator left behind by the passes of its own rank ends up at the root. */
  lemma {:induction false} LeftBehind(e: Expr, kept: seq<nat>, last: nat, rank: nat)
    requires e.BinaryExpr? && Chain(e) && ChainRanks(e) == kept + [last]
    requires rank <= 6 && MinRank(kept, rank) && last < rank && Known(kept)
    ensures Rank(Rewrite(e, RowOf(rank)).op) == last
    decreases 6 - rank
  {
    AtLeastFacts(kept, rank);
    if rank == 6 {
      AtLeastKnown(kept, 6);
      assert ChainRanks(e) == [Rank(e.op)] + ChainRanks(e.rhs);
      assert ChainRanks(e)[0] == last;
    } else {
      RewriteByRank(e, rank);
      LeftBehindRank(e, kept, last, rank);
      AtLeastKnown(kept, rank + 1);
      AtLeastFacts(kept, rank + 1);
      LeftBehind(PassRank(e, rank), AtLeast(kept, rank + 1), last, rank + 1);
    }
  }

  /** Whether the passes of one rank leave the last operator of the chain behind. */
  predicate LeavesLast(ranks: seq<nat>, parenLast: bool, rank: nat)
    requires ranks != []
  {
    Last(ranks) == rank && (parenLast || (rank != 2 && LoneRun(ranks, rank)))
  }

  predicate RankShaped(e: Expr, u: Expr, rank: nat)
    requires ChainRanks(e) != []
  {
    var ranks, parenLast := ChainRanks(e), LastOperand(e).ParenExpr?;
    var stays := LeavesLast(ranks, parenLast, rank);
    && Chain(u)
    && Expected(u) == Expected(e)
    && ChainRanks(u) == AtLeast(ranks, rank + 1) + (if stays then [Last(ranks)] else [])
    && (LastOperand(u).ParenExpr? <==> parenLast || (Last(ranks) == rank && !stays))
  }

  lemma {:induction false} SingleStays(e: Expr, row: seq<BinaryOp>)
    requires e.BinaryExpr? && |ChainRanks(e)| == 1
    ensures Pass(e, row) == e
  {
    assert ChainRanks(e) == [Rank(e.op)] + ChainRanks(e.rhs);
    assert !e.rhs.BinaryExpr?;
    assert UnwrapBinaryExpr(ParenExpr(e)) == UnwrapBinaryExpr(e) == e;
  }

  lemma {:induction false} UniformRank(e: Expr, rank: nat)
    requires e.BinaryExpr? && Chain(e) && rank <= 5 && AllRank(ChainRanks(e), rank)
    ensures var u := PassRank(e, rank); Chain(u) && |ChainRanks(u)| == 1 && Expected(u) == Expected(e)
  {
    RowsAreRanks(rank);
    var row := OP_PRECEDENCE[RowOf(rank)];
    var once := Pass(e, row);
    assert ChainRanks(e) == [Rank(e.op)] + ChainRanks(e.rhs);
    if |ChainRanks(e)| == 1 {
      SingleStays(e, row);
    } else {
      PassLonger(e, row, rank);
      PassLongerKeeps(e, row, rank);
      WithoutAll(ChainRanks(e), rank);
    }
    if rank == 2 { SingleStays(once, OP_PRECEDENCE[3]); }
  }

  /** Two visits by the row of additions. */
  lemma {:induction false} ShapeTwice(ranks: seq<nat>, p: bool, ranks1: seq<nat>, p1: bool, ranks2: seq<nat>, p2: bool)
    requires ranks != [] && MinRank(ranks, 2) && !AllRank(ranks, 2)
    requires Shape(ranks, p, 2, ranks1, p1)
    requires ranks1 != []
    requires if |ranks1| == 1 then ranks2 == ranks1 && p2 == p1 else Shape(ranks1, p1, 2, ranks2, p2)
    ensures var stays := LeavesLast(ranks, p, 2);
      && ranks2 == AtLeast(ranks, 3) + (if stays then [Last(ranks)] else [])
      && (p2 <==> p || (Last(ranks) == 2 && !stays))
  {
    var kept := AtLeast(ranks, 3);
    assert kept == Without(ranks, 2) by { AtLeastFacts(ranks, 2); }
    assert NoRank(kept, 2) && kept != [] by { WithoutNoRank(ranks, 2); }
    var tail := if Stuck(ranks, p, 2) then [Last(ranks)] else [];
    assert ranks1 == kept + tail;
    if |ranks1| == 1 {
      assert tail == [];
    } else {
      SecondVisitSettled(kept, tail, p1, 2, ranks2, p2);
    }
  }

  lemma {:induction false} AdditionsTwice(e: Expr, once: Expr, u: Expr)
    requires e.BinaryExpr? && Chain(e) && MinRank(ChainRanks(e), 2) && |ChainRanks(e)| > 1 && !AllRank(ChainRanks(e), 2)
    requires once == Pass(e, OP_PRECEDENCE[2]) && u == Pass(once, OP_PRECEDENCE[3])
    ensures RankShaped(e, u, 2)
  {
    RowsAreRanks(2);
    PassLonger(e, OP_PRECEDENCE[2], 2);
    PassLongerKeeps(e, OP_PRECEDENCE[2], 2);
    assert ChainRanks(once) == [Rank(once.op)] + ChainRanks(once.rhs);
    if |ChainRanks(once)| == 1 {
      SingleStays(once, OP_PRECEDENCE[3]);
    } else {
      PassLonger(once, OP_PRECEDENCE[3], 2);
      PassLongerKeeps(once, OP_PRECEDENCE[3], 2);
    }
    ShapeTwice(ChainRanks(e), LastOperand(e).ParenExpr?, ChainRanks(once), LastOperand(once).ParenExpr?,
               ChainRanks(u), LastOperand(u).ParenExpr?);
  }

  lemma {:induction false} MixedRank(e: Expr, rank: nat)
    requires e.BinaryExpr? && Chain(e) && rank <= 5 && MinRank(ChainRanks(e), rank)
    requires |ChainRanks(e)| > 1 && !AllRank(ChainRanks(e), rank)
    ensures RankShaped(e, PassRank(e, rank), rank)
  {
    if rank == 2 {
      AdditionsTwice(e, Pass(e, OP_PRECEDENCE[2]), PassRank(e, 2));
    } else {
      RowsAreRanks(rank);
      var row := OP_PRECEDENCE[RowOf(rank)];
      PassLonger(e, row, rank);
      PassLongerKeeps(e, row, rank);
      AtLeastFacts(ChainRanks(e), rank);
    }
  }

  /** The criterion does not change while the passes keep the grouping. */
  lemma {:induction false} CriterionKept(ranks: seq<nat>, parenLast: bool, rank: nat)
    requires MinRank(ranks, rank) && ranks != [] && !AllRank(ranks, rank)
    ensures AtLeast(ranks, rank + 1) != []
    ensures LeavesLast(ranks, parenLast, rank) ==> !GroupsConventionally(ranks, parenLast)
    ensures !LeavesLast(ranks, parenLast, rank) ==>
      GroupsConventionally(ranks, parenLast)
      == GroupsConventionally(AtLeast(ranks, rank + 1), parenLast || Last(ranks) == rank)
  {
    AtLeastFacts(ranks, rank);
    WithoutNoRank(ranks, rank);
    if Last(ranks) > rank {
      CriterionKeptAbove(ranks, parenLast, rank);
    } else {
      CriterionKeptAt(ranks, parenLast, rank);
    }
  }

  lemma CriterionKeptAbove(ranks: seq<nat>, parenLast: bool, rank: nat)
    requires ranks != [] && Last(ranks) > rank && AtLeast(ranks, rank + 1) != []
    ensures GroupsConventionally(ranks, parenLast) == GroupsConventionally(AtLeast(ranks, rank + 1), parenLast)
  {
    var last, kept := Last(ranks), AtLeast(ranks, rank + 1);
    KeptAbove(ranks, rank);
    CriterionAt(kept, parenLast, AtLeast(ranks, last), AtLeast(ranks, last + 1));
    CriterionAt(ranks, parenLast, AtLeast(ranks, last), AtLeast(ranks, last + 1));
  }

  lemma KeptAbove(ranks: seq<nat>, rank: nat)
    requires ranks != [] && Last(ranks) > rank && AtLeast(ranks, rank + 1) != []
    ensures var last, kept := Last(ranks), AtLeast(ranks, rank + 1);
      && Last(kept) == last && AtLeast(kept, last) == AtLeast(ranks, last)
      && AtLeast(kept, last + 1) == AtLeast(ranks, last + 1)
  {
    AtLeastFacts(ranks, rank + 1);
    AtLeastTwice(ranks, rank + 1, Last(ranks));
    AtLeastTwice(ranks, rank + 1, Last(ranks) + 1);
  }

  lemma {:induction false} CriterionAt(ranks: seq<nat>, parenLast: bool, notTighter: seq<nat>, looser: seq<nat>)
    requires ranks != []
    requires notTighter == AtLeast(ranks, Last(ranks)) && looser == AtLeast(ranks, Last(ranks) + 1)
    ensures GroupsConventionally(ranks, parenLast) == LastSettles(Last(ranks), notTighter, looser, parenLast)
  {
  }

  lemma CriterionKeptAt(ranks: seq<nat>, parenLast: bool, rank: nat)
    requires ranks != [] && Last(ranks) == rank && AtLeast(ranks, rank + 1) != []
    requires AtLeast(ranks, rank) == ranks
    ensures LeavesLast(ranks, parenLast, rank) ==> !GroupsConventionally(ranks, parenLast)
    ensures !LeavesLast(ranks, parenLast, rank) ==>
      GroupsConventionally(ranks, parenLast) == GroupsConventionally(AtLeast(ranks, rank + 1), true)
  {
    var kept := AtLeast(ranks, rank + 1);
    var last := Last(kept);
    assert GroupsConventionally(kept, true) == LastSettles(last, AtLeast(kept, last), AtLeast(kept, last + 1), true);
    assert GroupsConventionally(ranks, parenLast) == LastSettles(rank, ranks, kept, parenLast);
  }

  /** The root of the expected tree is as loose as any operator of the chain. */
  lemma {:induction false} ExpectedRoot(e: Expr, k: nat)
    requires k < |ChainRanks(e)| && ChainRanks(e)[k] <= 6
    ensures Expected(e).Node? && Rank(Expected(e).op) >= ChainRanks(e)[k]
  {
    LinkRanksOf(e);
    ConventionalRoot(LinksOf(e), 0, ChainRanks(e)[k]);
  }

  lemma UniformCriterion(ranks: seq<nat>, parenLast: bool, rank: nat)
    requires ranks != [] && AllRank(ranks, rank)
    ensures GroupsConventionally(ranks, parenLast)
  {
    assert Last(ranks) == rank;
    assert AtLeast(ranks, rank + 1) == [] by { AtLeastFacts(ranks, rank); }
  }

  lemma {:induction false} UniformChain(e: Expr, rank: nat)
    requires e.BinaryExpr? && Chain(e) && rank <= 5 && AllRank(ChainRanks(e), rank)
    ensures ChainRanks(e) != [] && GroupsConventionally(ChainRanks(e), LastOperand(e).ParenExpr?)
    ensures Strip(Rewrite(e, RowOf(rank))) == Expected(e)
  {
    RewriteByRank(e, rank);
    UniformRank(e, rank);
    var u := PassRank(e, rank);
    assert ChainRanks(u) == [Rank(u.op)] + ChainRanks(u.rhs);
    SingleOperator(u, RowOf(rank + 1));
    SingleGrouped(u);
    assert ChainRanks(e) == [Rank(e.op)] + ChainRanks(e.rhs);
    UniformCriterion(ChainRanks(e), LastOperand(e).ParenExpr?, rank);
  }

  lemma {:induction false} OneRank(e: Expr)
    requires e.BinaryExpr? && |ChainRanks(e)| == 1
    ensures ChainRanks(e) == [Rank(e.op)] && Rank(e.op) <= 6 && !e.rhs.BinaryExpr?
  {
    assert ChainRanks(e) == [Rank(e.op)] + ChainRanks(e.rhs);
  }

  lemma {:induction false} OneOperatorChain(e: Expr, from: nat)
    requires e.BinaryExpr? && Chain(e) && |ChainRanks(e)| == 1 && from <= |OP_PRECEDENCE|
    ensures GroupsConventionally(ChainRanks(e), LastOperand(e).ParenExpr?)
    ensures Strip(Rewrite(e, from)) == Expected(e)
  {
    OneRank(e);
    UniformCriterion(ChainRanks(e), LastOperand(e).ParenExpr?, Rank(e.op));
    SingleOperator(e, from);
    SingleGrouped(e);
  }

  lemma {:induction false} LooserRoot(e: Expr, rank: nat)
    requires Known(ChainRanks(e)) && MinRank(ChainRanks(e), rank) && !AllRank(ChainRanks(e), rank)
    ensures Expected(e).Node? && Rank(Expected(e).op) > rank
  {
    var k :| 0 <= k < |ChainRanks(e)| && ChainRanks(e)[k] != rank;
    ExpectedRoot(e, k);
  }

  /** If the passes of a rank leave the last operator behind, the result is grouped wrongly. */
  lemma {:induction false} LeftBehindWrong(e: Expr, rank: nat)
    requires e.BinaryExpr? && Chain(e) && rank <= 5 && MinRank(ChainRanks(e), rank) && Known(ChainRanks(e))
    requires |ChainRanks(e)| > 1 && !AllRank(ChainRanks(e), rank)
    requires LeavesLast(ChainRanks(e), LastOperand(e).ParenExpr?, rank) && RankShaped(e, PassRank(e, rank), rank)
    ensures Strip(Rewrite(e, RowOf(rank))) != Expected(e)
  {
    var ranks := ChainRanks(e);
    LooserRoot(e, rank);
    RewriteByRank(e, rank);
    assert Rank(Rewrite(e, RowOf(rank)).op) == Last(ranks) by {
      AtLeastKnown(ranks, rank + 1);
      AtLeastFacts(ranks, rank + 1);
      LeftBehind(PassRank(e, rank), AtLeast(ranks, rank + 1), Last(ranks), rank + 1);
    }
  }

  lemma {:induction false} FromRank(e: Expr, rank: nat)
    requires e.BinaryExpr? && Chain(e) && rank <= 6 && MinRank(ChainRanks(e), rank) && Known(ChainRanks(e))
    ensures ChainRanks(e) != []
    ensures Strip(Rewrite(e, RowOf(rank))) == Expected(e)
       <==> GroupsConventionally(ChainRanks(e), LastOperand(e).ParenExpr?)
    decreases 6 - rank, 1
  {
    var ranks, parenLast := ChainRanks(e), LastOperand(e).ParenExpr?;
    assert ranks == [Rank(e.op)] + ChainRanks(e.rhs);
    assert rank <= ranks[0] <= 5;
    if AllRank(ranks, rank) {
      UniformChain(e, rank);
    } else if |ranks| == 1 {
      OneOperatorChain(e, RowOf(rank));
    } else {
      MixedRank(e, rank);
      CriterionKept(ranks, parenLast, rank);
      if LeavesLast(ranks, parenLast, rank) {
        LeftBehindWrong(e, rank);
      } else {
        NextRank(e, rank);
      }
    }
  }

  lemma {:induction false} NextRank(e: Expr, rank: nat)
    requires e.BinaryExpr? && Chain(e) && rank <= 5 && Known(ChainRanks(e)) && ChainRanks(e) != []
    requires RankShaped(e, PassRank(e, rank), rank) && !LeavesLast(ChainRanks(e), LastOperand(e).ParenExpr?, rank)
    requires AtLeast(ChainRanks(e), rank + 1) != []
    ensures Strip(Rewrite(e, RowOf(rank))) == Expected(e)
       <==> GroupsConventionally(AtLeast(ChainRanks(e), rank + 1),
                                 LastOperand(e).ParenExpr? || Last(ChainRanks(e)) == rank)
    decreases 6 - rank, 0
  {
    var ranks, u := ChainRanks(e), PassRank(e, rank);
    var kept := AtLeast(ranks, rank + 1);
    assert kept + [] == kept;
    assert ChainRanks(u) == kept;
    assert Known(kept) by { AtLeastKnown(ranks, rank + 1); }
    assert MinRank(kept, rank + 1) by { AtLeastFacts(ranks, rank + 1); }
    RewriteByRank(e, rank);
    FromRank(u, rank + 1);
  }

  lemma {:induction false} AtLeastSplit(a: seq<nat>, b: seq<nat>, rank: nat)
    ensures AtLeast(a + b, rank) == AtLeast(a, rank) + AtLeast(b, rank)
  {
    if a == [] {
      assert a + b == b;
    } else {
      assert (a + b)[0] == a[0] && (a + b)[1..] == a[1..] + b;
      AtLeastSplit(a[1..], b, rank);
      var head := if a[0] >= rank then [a[0]] else [];
      var rest, others := AtLeast(a[1..], rank), AtLeast(b, rank);
      assert AtLeast(a + b, rank) == head + (rest + others);
      assert (head + rest) + others == head + (rest + others);
    }
  }

  lemma SplitLooser(kept: seq<nat>, last: nat, rank: nat, stays: bool, after: seq<nat>) returns (kept': seq<nat>, last': nat)
    requires Known(kept) && after != []
    requires after == AtLeast(kept + [last], rank + 1) + (if stays then [last] else [])
    requires stays ==> last == rank
    ensures after == kept' + [last'] && MinRank(kept', rank + 1) && Known(kept')
  {
    var looser := AtLeast(kept, rank + 1);
    AtLeastFacts(kept, rank + 1);
    AtLeastKnown(kept, rank + 1);
    AtLeastSplit(kept, [last], rank + 1);
    if stays || last > rank {
      kept', last' := looser, last;
    } else {
      assert after == looser;
      kept', last' := looser[..|looser| - 1], Last(looser);
    }
  }

  /** Which operators the passes of a rank leave if some operator is looser. */
  lemma {:induction false} MixedLeaves(e: Expr, rank: nat)
    requires e.BinaryExpr? && Chain(e) && rank <= 5 && MinRank(ChainRanks(e), rank)
    requires |ChainRanks(e)| > 1 && !AllRank(ChainRanks(e), rank)
    ensures Chain(PassRank(e, rank)) && ChainRanks(PassRank(e, rank)) != []
    ensures ChainRanks(PassRank(e, rank)) == AtLeast(ChainRanks(e), rank + 1)
         + (if LeavesLast(ChainRanks(e), LastOperand(e).ParenExpr?, rank) then [Last(ChainRanks(e))] else [])
  {
    var u := PassRank(e, rank);
    MixedRank(e, rank);
    assert ChainRanks(u) == [Rank(u.op)] + ChainRanks(u.rhs);
  }

  /** After the passes of a rank all operators but the last one are looser. */
  lemma LeavesLooser(e: Expr, kept: seq<nat>, last: nat, rank: nat) returns (kept': seq<nat>, last': nat)
    requires e.BinaryExpr? && Chain(e) && ChainRanks(e) == kept + [last] && kept != []
    requires rank <= 5 && MinRank(kept, rank) && Known(kept)
    ensures Chain(PassRank(e, rank)) && ChainRanks(PassRank(e, rank)) == kept' + [last']
    ensures MinRank(kept', rank + 1) && Known(kept')
  {
    if last < rank {
      kept', last' := AtLeast(kept, rank + 1), last;
      LeftBehindRank(e, kept, last, rank);
      assert MinRank(kept', rank + 1) by { AtLeastFacts(kept, rank + 1); }
      AtLeastKnown(kept, rank + 1);
    } else if AllRank(ChainRanks(e), rank) {
      kept', last' := UniformLeaves(e, rank);
    } else {
      MixedLeaves(e, rank);
      var stays := LeavesLast(ChainRanks(e), LastOperand(e).ParenExpr?, rank);
      kept', last' := SplitLooser(kept, last, rank, stays, ChainRanks(PassRank(e, rank)));
    }
  }

  lemma UniformLeaves(e: Expr, rank: nat) returns (kept': seq<nat>, last': nat)
    requires e.BinaryExpr? && Chain(e) && rank <= 5 && AllRank(ChainRanks(e), rank)
    ensures Chain(PassRank(e, rank)) && kept' == [] && ChainRanks(PassRank(e, rank)) == [last']
  {
    UniformRank(e, rank);
    kept', last' := [], ChainRanks(PassRank(e, rank))[0];
  }

  lemma {:induction false} LeavesOneFrom(e: Expr, kept: seq<nat>, last: nat, rank: nat)
    requires e.BinaryExpr? && Chain(e) && ChainRanks(e) == kept + [last]
    requires rank <= 6 && MinRank(kept, rank) && Known(kept)
    ensures Chain(Rewrite(e, RowOf(rank))) && |ChainRanks(Rewrite(e, RowOf(rank)))| == 1
    decreases 6 - rank
  {
    if kept == [] {
      assert ChainRanks(e) == [Rank(e.op)] + ChainRanks(e.rhs);
      assert !e.rhs.BinaryExpr?;
      SingleOperator(e, RowOf(rank));
    } else {
      assert 6 > kept[0] >= rank;
      var kept', last' := LeavesLooser(e, kept, last, rank);
      RewriteByRank(e, rank);
      LeavesOneFrom(PassRank(e, rank), kept', last', rank + 1);
    }
  }

  /** The rewriting leaves one operator of a chain, and puts the rest into parentheses. */
  lemma {:induction false} RewriteLeavesOne(e: Expr)
    requires e.BinaryExpr? && Chain(e) && Known(ChainRanks(e))
    ensures Chain(Rewrite(e, 0)) && |ChainRanks(Rewrite(e, 0))| == 1
  {
    var ranks := ChainRanks(e);
    assert ranks == [Rank(e.op)] + ChainRanks(e.rhs);
    assert ranks == ranks[..|ranks| - 1] + [Last(ranks)];
    LeavesOneFrom(e, ranks[..|ranks| - 1], Last(ranks), 0);
  }

  /** For every chain the table's operators can form: the rewriting gives the conventional
      grouping exactly when the chain passes the check. */
  lemma {:induction false} GroupedConventionallyIff(e: Expr)
    requires e.BinaryExpr? && Chain(e) && Known(ChainRanks(e))
    ensures ChainRanks(e) != []
    ensures Strip(Rewrite(e, 0)) == Expected(e)
       <==> GroupsConventionally(ChainRanks(e), LastOperand(e).ParenExpr?)
  {
    FromRank(e, 0);
  }

  /** All operators applied from left to right, whatever their rank. */
  function LeftNested(c: Links): Tree
    decreases Length(c)
  {
    match c
    case End(t) => t
    case Link(t, op, rest) => LeftNested(WithHead(rest, Node(op, t, rest.t)))
  }

  lemma {:induction false} UniformMerged(c: Links, rank: nat)
    requires AllRank(LinkRanks(c), rank)
    ensures Merged(c, rank) == End(LeftNested(c))
    decreases Length(c)
  {
    if c.Link? {
      var c' := WithHead(c.rest, Node(c.op, c.t, c.rest.t));
      assert LinkRanks(c)[0] == Rank(c.op) && LinkRanks(c)[1..] == LinkRanks(c.rest) == LinkRanks(c');
      UniformMerged(c', rank);
    }
  }

  /** A right-nested chain of one rank becomes its left-nested form. */
  lemma {:induction false} UniformChainsNestLeft(e: Expr, rank: nat)
    requires e.BinaryExpr? && Chain(e) && rank <= 5 && AllRank(ChainRanks(e), rank)
    ensures Strip(Rewrite(e, 0)) == LeftNested(LinksOf(e))
  {
    assert ChainRanks(e) == [Rank(e.op)] + ChainRanks(e.rhs);
    UniformCriterion(ChainRanks(e), LastOperand(e).ParenExpr?, rank);
    GroupedConventionallyIff(e);
    ExpectedFrom(e, rank);
    LinkRanksOf(e);
    UniformMerged(LinksOf(e), rank);
    EndGrouped(End(LeftNested(LinksOf(e))), rank + 1);
  }

  lemma {:induction false} NotInRow(e: Expr, row: seq<BinaryOp>)
    requires e.BinaryExpr? && e.op !in row && ExprPrecedence(e.rhs, row) == e.rhs
    ensures ExprPrecedence(e, row) == e
  {
  }

  /** `x + b * c * d` fails the check: it is read as `(x + (b * c)) * d`. */
  lemma ProductAfterSumMisread()
    ensures Strip(Rewrite(BinaryExpr(Add, Term(0), BinaryExpr(Mul, Term(1), BinaryExpr(Mul, Term(2), Term(3)))), 0))
         == Node(Mul, Node(Add, Leaf(0), Node(Mul, Leaf(1), Leaf(2))), Leaf(3))
  {
    var cd := BinaryExpr(Mul, Term(2), Term(3));
    var bcd := BinaryExpr(Mul, Term(1), cd);
    var e := BinaryExpr(Add, Term(0), bcd);
    var grouped := BinaryExpr(Mul, ParenExpr(BinaryExpr(Mul, Term(1), Term(2))), Term(3));
    var once := BinaryExpr(Add, Term(0), grouped);
    var final := BinaryExpr(Mul, ParenExpr(BinaryExpr(Add, Term(0), grouped.lhs)), Term(3));
    NotInRow(cd, OP_PRECEDENCE[0]);
    NotInRow(bcd, OP_PRECEDENCE[0]);
    NotInRow(e, OP_PRECEDENCE[0]);
    assert Rewrite(e, 0) == Rewrite(e, 1);
    assert Rotate(bcd) == grouped;
    LastPair(grouped, OP_PRECEDENCE[1]);
    assert ExprPrecedence(bcd, OP_PRECEDENCE[1]) == grouped;
    assert Rewrite(e, 1) == Rewrite(once, 2);
    assert Rotate(once) == final;
    NotInRow(final, OP_PRECEDENCE[2]);
    assert Rewrite(once, 2) == Rewrite(final, 3);
    SingleOperator(final, 3);
  }

  lemma {:induction false} LastPair(e: Expr, row: seq<BinaryOp>)
    requires e.BinaryExpr? && e.op in row && e.rhs.Term?
    ensures ExprPrecedence(e, row) == ParenExpr(e) && UnwrapBinaryExpr(ParenExpr(e)) == e
  {
    assert UnwrapBinaryExpr(e) == e;
  }
}
